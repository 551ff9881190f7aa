/**
 Which errors the conformance gate gives (scripts/mcp_conformance/run_codex_compliance.py): for
 every kind of error, what about a report document brings it about.
 */
module RegressionErrors {
  import opened JsonValue
  import opened Listing
  import opened GateRelation
  import opened RegressionReport
  import opened RegressionGate
  import opened RegressionClean
  import opened RegressionVerdict
  import opened RegressionShown
  import C = RegressionCrash

  // ---------------------------------------------------------------- the faults of a document

  /** The case for a version and transport that is read. */
  ghost predicate IsRead(f: Fields, i: nat, mode: string, transport: Transport) {
    Get(f, Cases).Arr? && C.FirstCase(Get(f, Cases).items, i, mode, TransportText(transport))
  }

  function ChecksAt(f: Fields, i: nat): Value
    requires Get(f, Cases).Arr? && i < |Get(f, Cases).items| && Get(f, Cases).items[i].Obj?
  {
    Get(Get(f, Cases).items[i].fields, ChecksKey)
  }

  predicate HasChecks(v: Value) {
    v.Arr? && v.items != []
  }

  /** The scenarios of a version are looked at: those of a case with checks, or of a compact baseline with buckets. */
  ghost predicate Covering(f: Fields, mode: string) {
    if Get(f, BaselineKind) == Null
    then exists i: nat :: IsRead(f, i, mode, OfficialHttp) && HasChecks(ChecksAt(f, i))
    else HasBuckets(f)
  }

  predicate HasBuckets(f: Fields) {
    IsCompact(f) && Get(f, ChecksKey).Obj?
  }

  /** Something other than a supplemental check shows this scenario over official HTTP. */
  ghost predicate ScenarioShown(suite: Suite, f: Fields, mode: string, scenario: string) {
    exists id, status ::
      Shows(suite, f, id, status) && id.mode == mode && id.transport == OfficialHttp
      && id.source != Supplemental && id.scenario == scenario
  }

  /** A full report has a case for the version and transport, a compact baseline shows a check of it. */
  ghost predicate CasePresent(suite: Suite, f: Fields, mode: string, transport: Transport) {
    if Get(f, BaselineKind) == Null then exists i: nat :: IsRead(f, i, mode, transport)
    else exists id, status :: Shows(suite, f, id, status) && id.mode == mode && id.transport == transport
  }

  predicate HeaderFault(suite: Suite, f: Fields, p: Problem) {
    var version, official := Get(f, VersionCheck), Get(f, OfficialConformance);
    match p
    case WrongSchema => Get(f, SchemaVersion) != Int(4) && Get(f, SchemaVersion) != Float(4.0)
    case NoVersionCheck => !version.Obj? || Get(version.fields, Success) != Bool(true)
    case ModernFeatureOff => Get(f, ModernFeatureEnablement) != Bool(true)
    case NoMetadata => !official.Obj?
    case WrongRepository => official.Obj? && Get(official.fields, Repository) != Str(suite.repository)
    case WrongRevision => official.Obj? && Get(official.fields, GitRef) != Str(suite.gitRef)
    case NoOAuthScenarios => official.Obj? && Get(official.fields, AuthenticationIncluded) != Bool(true)
    case NoCatalog => official.Obj? && !Get(official.fields, Scenarios).Obj?
    case _ => false
  }

  /** The bucket has a record that is not well-formed. */
  predicate BadRecord(suite: Suite, v: Value) {
    v.Arr? && exists i :: 0 <= i < |v.items| && !GoodRecord(suite, v.items[i])
  }

  /** The record is well-formed and spells the identity. */
  predicate Records(suite: Suite, v: Value, id: Identity) {
    GoodRecord(suite, v) && Spells(v, id)
  }

  /** Two well-formed records of the bucket spell the same identity. */
  ghost predicate SpelledTwice(suite: Suite, v: Value) {
    v.Arr? &&
    exists i, j, id :: 0 <= i < j < |v.items| && Records(suite, v.items[i], id) && Records(suite, v.items[j], id)
  }

  ghost predicate CompactFault(suite: Suite, f: Fields, p: Problem) {
    var transports := Get(f, Transports);
    match p
    case UnsupportedBaseline => !IsCompact(f)
    case WrongModes => IsCompact(f) && Get(f, RequiredModes) != Texts(suite.modes)
    case WrongTransports =>
      IsCompact(f) && transports != Arr([Str("stdio"), Str("official-http")])
      && transports != Arr([Str("official-http"), Str("stdio")])
    case NoIdentities => IsCompact(f) && !Get(f, ChecksKey).Obj?
    case NoBucket(status) => HasBuckets(f) && status != Skip && !BucketOf(f, status).Arr?
    case MalformedIdentity =>
      HasBuckets(f) && (BadRecord(suite, BucketOf(f, Pass)) || BadRecord(suite, BucketOf(f, Fail)))
    case DuplicateIdentity =>
      HasBuckets(f) && (SpelledTwice(suite, BucketOf(f, Pass)) || SpelledTwice(suite, BucketOf(f, Fail)))
    case _ => false
  }

  /** A case that is no object, or one of a required version that names no transport. */
  predicate BadCase(suite: Suite, v: Value) {
    !v.Obj? || (Get(v.fields, Mode).Str? && Get(v.fields, Mode).s in suite.modes && !Get(v.fields, TransportKey).Str?)
  }

  /** Two cases are for the same required version and transport. */
  ghost predicate ListedTwice(suite: Suite, list: seq<Value>) {
    exists i, j, mode, transport :: 0 <= i < j < |list| && AreBoth(suite, list[i], list[j], mode, transport)
  }

  predicate AreBoth(suite: Suite, v: Value, w: Value, mode: string, transport: string) {
    mode in suite.modes && C.IsCase(v, mode, transport) && C.IsCase(w, mode, transport)
  }

  predicate SomeBadCase(suite: Suite, list: seq<Value>) {
    exists i :: 0 <= i < |list| && BadCase(suite, list[i])
  }

  ghost predicate FullFault(suite: Suite, f: Fields, p: Problem) {
    var list := Get(f, Cases);
    match p
    case NoCases => !list.Arr?
    case MalformedCase => list.Arr? && SomeBadCase(suite, list.items)
    case DuplicateCase => list.Arr? && ListedTwice(suite, list.items)
    case NoChecks(mode, transport) =>
      mode in suite.modes && exists i: nat :: IsRead(f, i, mode, transport) && !HasChecks(ChecksAt(f, i))
    case MalformedCheck(mode, transport) =>
      mode in suite.modes
      && exists i: nat :: IsRead(f, i, mode, transport) && ChecksAt(f, i).Arr? && !GoodChecks(ChecksAt(f, i).items)
    case _ => false
  }

  /** What both forms are asked for, version by version. */
  ghost predicate CoverageFault(suite: Suite, f: Fields, p: Problem) {
    match p
    case IncompleteCatalog(mode) => mode in suite.modes && !RanCatalog(suite, f, mode)
    case MissingCase(mode, transport) => mode in suite.modes && !CasePresent(suite, f, mode, transport)
    case MissingScenarios(mode, scenarios) =>
      mode in suite.modes && Covering(f, mode) && scenarios != {}
      && forall s :: s in scenarios <==> s in suite.catalog(mode) && !ScenarioShown(suite, f, mode, s)
    case UnexpectedScenarios(mode, scenarios) =>
      mode in suite.modes && Covering(f, mode) && scenarios != {}
      && forall s :: s in scenarios <==> ScenarioShown(suite, f, mode, s) && s !in suite.catalog(mode)
    case _ => false
  }

  /** The document has the fault an error is about. */
  ghost predicate Faulty(suite: Suite, f: Fields, p: Problem) {
    HeaderFault(suite, f, p)
    || (if Get(f, BaselineKind) == Null then FullFault(suite, f, p) || CoverageFault(suite, f, p)
        else CompactFault(suite, f, p) || (HasBuckets(f) && CoverageFault(suite, f, p)))
  }

  // ---------------------------------------------------------------- the header

  lemma NoteHas(bad: bool, q: Problem, p: Problem)
    ensures p in Note(bad, q) <==> bad && p == q
  {
  }

  lemma HeaderIff(suite: Suite, f: Fields, p: Problem)
    ensures p in HeaderProblems(suite, f) <==> HeaderFault(suite, f, p)
  {
    hide Note, EqualsInt;
    var version, official := Get(f, VersionCheck), Get(f, OfficialConformance);
    SchemaIs(Get(f, SchemaVersion));
    NoteHas(!EqualsInt(Get(f, SchemaVersion), SCHEMA_VERSION), WrongSchema, p);
    NoteHas(!(version.Obj? && Get(version.fields, Success) == Bool(true)), NoVersionCheck, p);
    NoteHas(Get(f, ModernFeatureEnablement) != Bool(true), ModernFeatureOff, p);
    if official.Obj? {
      NoteHas(Get(official.fields, Repository) != Str(suite.repository), WrongRepository, p);
      NoteHas(Get(official.fields, GitRef) != Str(suite.gitRef), WrongRevision, p);
      NoteHas(Get(official.fields, AuthenticationIncluded) != Bool(true), NoOAuthScenarios, p);
      NoteHas(!Get(official.fields, Scenarios).Obj?, NoCatalog, p);
    }
  }

  lemma SchemaIs(v: Value)
    ensures EqualsInt(v, 4) <==> v == Int(4) || v == Float(4.0)
  {
  }

  // ---------------------------------------------------------------- compact baselines

  lemma {:induction false} RecordsIff(suite: Suite, records: seq<Value>, p: Problem)
    requires !ReadRecords(suite, records).BucketCrash?
    ensures p in ReadRecords(suite, records).problems
       <==> (p == MalformedIdentity && BadRecord(suite, Arr(records)))
            || (p == DuplicateIdentity && SpelledTwice(suite, Arr(records)))
  {
    if records != [] {
      RecordsStep(suite, records);
      hide ReadRecords, GoodRecord, Records, BadRecord, SpelledTwice, BucketShows;
      var n := |records| - 1;
      RecordsIff(suite, records[..n], p);
      BadAppend(suite, records);
      TwiceAppend(suite, records);
      forall id | Records(suite, records[n], id)
        ensures id in ReadRecords(suite, records[..n]).ids <==> BucketShows(suite, Arr(records[..n]), id)
      {
        RecordsShow(suite, records[..n], id);
      }
    }
  }

  /** What one more record adds to the problems. */
  lemma RecordsStep(suite: Suite, records: seq<Value>)
    requires records != [] && !ReadRecords(suite, records).BucketCrash?
    ensures
      var n := |records| - 1;
      var was, now := ReadRecords(suite, records[..n]), ReadRecords(suite, records);
      !was.BucketCrash?
      && (!GoodRecord(suite, records[n]) ==> now.problems == was.problems + [MalformedIdentity])
      && (GoodRecord(suite, records[n]) ==> exists id :: Records(suite, records[n], id))
      && forall id | Records(suite, records[n], id) ::
           now.problems == if id in was.ids then was.problems + [DuplicateIdentity] else was.problems
  {
    var n := |records| - 1;
    GoodRecordReads(suite, records[n]);
    forall id ensures Records(suite, records[n], id) <==> ReadRecord(suite, records[n]) == Good(id) {
      RecordIff(suite, records[n], id);
      GoodSpells(suite, records[n], id);
    }
    hide ReadRecord, GoodRecord, Records;
    if ReadRecord(suite, records[n]).Good? {
      assert Records(suite, records[n], ReadRecord(suite, records[n]).value);
    }
  }

  lemma GoodSpells(suite: Suite, v: Value, id: Identity)
    ensures Records(suite, v, id) <==> GoodRecord(suite, v) && Spells(v, id)
  {
  }

  lemma BadAppend(suite: Suite, records: seq<Value>)
    requires records != []
    ensures
      var n := |records| - 1;
      BadRecord(suite, Arr(records)) <==> BadRecord(suite, Arr(records[..n])) || !GoodRecord(suite, records[n])
  {
    hide GoodRecord;
    var n := |records| - 1;
    assert forall i | 0 <= i < n :: records[..n][i] == records[i];
  }

  lemma ShowsRecords(suite: Suite, records: seq<Value>, id: Identity)
    ensures BucketShows(suite, Arr(records), id) <==> exists i :: 0 <= i < |records| && Records(suite, records[i], id)
  {
    hide GoodRecord, Spells;
    if BucketShows(suite, Arr(records), id) {
      var i :| 0 <= i < |records| && GoodRecord(suite, records[i]) && Spells(records[i], id);
      assert Records(suite, records[i], id);
    }
  }

  lemma TwiceAppend(suite: Suite, records: seq<Value>)
    requires records != []
    ensures
      var n := |records| - 1;
      SpelledTwice(suite, Arr(records))
      <==> SpelledTwice(suite, Arr(records[..n]))
           || exists id :: Records(suite, records[n], id) && BucketShows(suite, Arr(records[..n]), id)
  {
    hide Records, BucketShows, SpelledTwice;
    var n := |records| - 1;
    if SpelledTwice(suite, Arr(records)) {
      TwiceSplits(suite, records);
    }
    if SpelledTwice(suite, Arr(records[..n])) {
      TwiceStays(suite, records);
    }
    if id :| Records(suite, records[n], id) && BucketShows(suite, Arr(records[..n]), id) {
      TwiceByLast(suite, records, id);
    }
  }

  lemma TwiceSplits(suite: Suite, records: seq<Value>)
    requires records != [] && SpelledTwice(suite, Arr(records))
    ensures
      var n := |records| - 1;
      SpelledTwice(suite, Arr(records[..n]))
      || exists id :: Records(suite, records[n], id) && BucketShows(suite, Arr(records[..n]), id)
  {
    hide Records, BucketShows;
    var n := |records| - 1;
    var front := records[..n];
    var i, j, id :| 0 <= i < j < |records| && Records(suite, records[i], id) && Records(suite, records[j], id);
    assert front[i] == records[i];
    if j < n {
      assert front[j] == records[j];
      assert SpelledTwice(suite, Arr(front));
    } else {
      ShowsRecords(suite, front, id);
    }
  }

  lemma TwiceStays(suite: Suite, records: seq<Value>)
    requires records != [] && SpelledTwice(suite, Arr(records[..|records| - 1]))
    ensures SpelledTwice(suite, Arr(records))
  {
    hide Records;
    var front := records[..|records| - 1];
    var i, j, id :| 0 <= i < j < |front| && Records(suite, front[i], id) && Records(suite, front[j], id);
    assert front[i] == records[i] && front[j] == records[j];
  }

  lemma TwiceByLast(suite: Suite, records: seq<Value>, id: Identity)
    requires records != [] && Records(suite, records[|records| - 1], id)
    requires BucketShows(suite, Arr(records[..|records| - 1]), id)
    ensures SpelledTwice(suite, Arr(records))
  {
    hide Records, BucketShows;
    var front := records[..|records| - 1];
    ShowsRecords(suite, front, id);
    var i :| 0 <= i < |front| && Records(suite, front[i], id);
    assert front[i] == records[i];
  }

  lemma BucketIff(suite: Suite, v: Value, status: Status, p: Problem)
    requires !ReadBucket(suite, v, status).BucketCrash?
    ensures p in ReadBucket(suite, v, status).problems
       <==> (p == NoBucket(status) && !v.Arr?) || (p == MalformedIdentity && BadRecord(suite, v))
            || (p == DuplicateIdentity && SpelledTwice(suite, v))
  {
    hide ReadRecords, GoodRecord, Records;
    if v.Arr? {
      RecordsIff(suite, v.items, p);
    }
  }

  // ---------------------------------------------------------------- scenarios

  /** These are the scenarios that the observations of a version cover over official HTTP. */
  ghost predicate Sees(suite: Suite, f: Fields, mode: string, observed: set<Observation>) {
    forall s :: s in ObservedScenarios(observed, mode) <==> ScenarioShown(suite, f, mode, s)
  }

  lemma ScenariosIff(suite: Suite, f: Fields, mode: string, observed: set<Observation>, p: Problem)
    requires mode in suite.modes && Covering(f, mode) && Sees(suite, f, mode, observed)
    ensures p in ScenarioProblems(suite, mode, observed)
       <==> (p.MissingScenarios? || p.UnexpectedScenarios?) && p.mode == mode && CoverageFault(suite, f, p)
  {
    hide ObservedScenarios, ScenarioShown, Covering, Note;
    var expected, seen := SetOf(suite.catalog(mode)), ObservedScenarios(observed, mode);
    NoteHas(expected - seen != {}, MissingScenarios(mode, expected - seen), p);
    NoteHas(seen - expected != {}, UnexpectedScenarios(mode, seen - expected), p);
    if p.MissingScenarios? && p.mode == mode && CoverageFault(suite, f, p) {
      assert p.scenarios == expected - seen;
    }
    if p.UnexpectedScenarios? && p.mode == mode && CoverageFault(suite, f, p) {
      assert p.scenarios == seen - expected;
    }
  }

  /** Observations that are shown, and all of this version over official HTTP, cover what is shown. */
  lemma ObservedSees(suite: Suite, f: Fields, mode: string, observed: set<Observation>)
    requires forall id: Identity, status: Status | id.mode == mode && id.transport == OfficialHttp ::
      (id, status) in observed <==> Shows(suite, f, id, status)
    ensures Sees(suite, f, mode, observed)
  {
    hide Shows;
    forall s ensures s in ObservedScenarios(observed, mode) <==> ScenarioShown(suite, f, mode, s) {
      if s in ObservedScenarios(observed, mode) {
        var o :| o in observed && o.0.mode == mode && o.0.transport == OfficialHttp
                 && o.0.source in {Official, Harness} && o.0.scenario == s;
        assert o == (o.0, o.1);
        assert Shows(suite, f, o.0, o.1);
      }
      if id, status :| Shows(suite, f, id, status) && id.mode == mode && id.transport == OfficialHttp
                       && id.source != Supplemental && id.scenario == s
      {
        assert (id, status) in observed && id.source in {Official, Harness};
      }
    }
  }

  // ---------------------------------------------------------------- coverage of a compact baseline

  lemma InOneOf(p: Problem, a: seq<Problem>, b: seq<Problem>, c: seq<Problem>, d: seq<Problem>)
    ensures p in a + b + c + d <==> p in a || p in b || p in c || p in d
  {
  }

  lemma CoverageAt(suite: Suite, f: Fields, observed: set<Observation>, mode: string, p: Problem)
    requires HasBuckets(f) && mode in suite.modes
    requires forall id, status :: (id, status) in observed <==> Shows(suite, f, id, status)
    ensures p in CoverageProblems(suite, Selected(f), observed, mode)
       <==> (p.IncompleteCatalog? || p.MissingCase? || p.MissingScenarios? || p.UnexpectedScenarios?)
            && p.mode == mode && CoverageFault(suite, f, p)
  {
    RanCatalogIff(suite, f, mode);
    ObservedSees(suite, f, mode, observed);
    CoversIff(suite, f, observed, mode, Stdio);
    CoversIff(suite, f, observed, mode, OfficialHttp);
    hide ScenarioProblems, RunsCatalog, RanCatalog, Covers, Shows, Selected, Note, ScenarioShown, CasePresent, Sees;
    var a := Note(!RunsCatalog(suite, Selected(f), mode), IncompleteCatalog(mode));
    var b := Note(!Covers(observed, mode, Stdio), MissingCase(mode, Stdio));
    var c := Note(!Covers(observed, mode, OfficialHttp), MissingCase(mode, OfficialHttp));
    InOneOf(p, a, b, c, ScenarioProblems(suite, mode, observed));
    ScenariosIff(suite, f, mode, observed, p);
    NoteHas(!RunsCatalog(suite, Selected(f), mode), IncompleteCatalog(mode), p);
    NoteHas(!Covers(observed, mode, Stdio), MissingCase(mode, Stdio), p);
    NoteHas(!Covers(observed, mode, OfficialHttp), MissingCase(mode, OfficialHttp), p);
    if p.IncompleteCatalog? || p.MissingCase? {
      PlainFault(suite, f, p);
    }
    hide CoverageFault;
    if p.MissingCase? {
      assert p.transport.Stdio? || p.transport.OfficialHttp?;
    }
  }

  lemma PlainFault(suite: Suite, f: Fields, p: Problem)
    requires p.IncompleteCatalog? || p.MissingCase?
    ensures CoverageFault(suite, f, p)
       <==> p.mode in suite.modes
            && if p.IncompleteCatalog? then !RanCatalog(suite, f, p.mode)
               else !CasePresent(suite, f, p.mode, p.transport)
  {
    hide RanCatalog, CasePresent;
  }

  lemma CoversIff(suite: Suite, f: Fields, observed: set<Observation>, mode: string, transport: Transport)
    requires HasBuckets(f) && forall id, status :: (id, status) in observed <==> Shows(suite, f, id, status)
    ensures Covers(observed, mode, transport) <==> CasePresent(suite, f, mode, transport)
  {
    hide Shows;
    if o :| o in observed && o.0.mode == mode && o.0.transport == transport {
      assert o == (o.0, o.1);
      assert Shows(suite, f, o.0, o.1);
    }
    if id, status :| Shows(suite, f, id, status) && id.mode == mode && id.transport == transport {
      assert (id, status) in observed;
    }
  }

  lemma {:induction false} CoverageIff(
      suite: Suite, f: Fields, observed: set<Observation>, modes: seq<string>, p: Problem)
    requires HasBuckets(f) && forall mode | mode in modes :: mode in suite.modes
    requires forall id, status :: (id, status) in observed <==> Shows(suite, f, id, status)
    ensures p in AllCoverageProblems(suite, Selected(f), observed, modes)
       <==> (p.IncompleteCatalog? || p.MissingCase? || p.MissingScenarios? || p.UnexpectedScenarios?)
            && p.mode in modes && CoverageFault(suite, f, p)
  {
    hide CoverageProblems, CoverageFault, Shows, Selected;
    if modes != [] {
      var front, last := modes[..|modes| - 1], modes[|modes| - 1];
      assert modes == front + [last];
      CoverageIff(suite, f, observed, front, p);
      CoverageAt(suite, f, observed, last, p);
    }
  }

  lemma CoverageHasMode(suite: Suite, f: Fields, p: Problem)
    requires CoverageFault(suite, f, p)
    ensures (p.IncompleteCatalog? || p.MissingCase? || p.MissingScenarios? || p.UnexpectedScenarios?)
      && p.mode in suite.modes
  {
  }

  /** The problems of a compact baseline, part by part. */
  lemma CompactParts(suite: Suite, f: Fields)
    requires !ReadCompact(suite, f).Crash?
    ensures
      var r, header := ReadCompact(suite, f), HeaderProblems(suite, f);
      var modes := Note(Get(f, RequiredModes) != Texts(suite.modes), WrongModes);
      var transports := Note(!BothTransports(Get(f, Transports)), WrongTransports);
      r.problems ==
        if !IsCompact(f) then header + [UnsupportedBaseline]
        else if !Get(f, ChecksKey).Obj? then header + modes + transports + [NoIdentities]
        else header + modes + transports + BucketProblems(suite, f)
  {
    hide HeaderProblems, ReadBucket, AllCoverageProblems, Texts, BothTransports, Tagged, Selected, Note;
    if HasBuckets(f) {
      var header := HeaderProblems(suite, f);
      var modes := Note(Get(f, RequiredModes) != Texts(suite.modes), WrongModes);
      var transports := Note(!BothTransports(Get(f, Transports)), WrongTransports);
      var notes := header + modes + transports;
      var checks := Get(f, ChecksKey).fields;
      var passing := ReadBucket(suite, Get(checks, Passing), Pass);
      var failing := ReadBucket(suite, Get(checks, Failing), Fail);
      var observed := Tagged(passing.ids, Pass) + Tagged(failing.ids, Fail);
      var rest := AllCoverageProblems(suite, Selected(f), observed, suite.modes);
      assert notes + passing.problems + failing.problems + rest == notes + (passing.problems + failing.problems + rest);
    }
  }

  function BucketProblems(suite: Suite, f: Fields): seq<Problem>
    requires HasBuckets(f) && !ReadCompact(suite, f).Crash?
  {
    var checks := Get(f, ChecksKey).fields;
    var passing := ReadBucket(suite, Get(checks, Passing), Pass);
    var failing := ReadBucket(suite, Get(checks, Failing), Fail);
    passing.problems + failing.problems
      + AllCoverageProblems(suite, Selected(f), Tagged(passing.ids, Pass) + Tagged(failing.ids, Fail), suite.modes)
  }

  /** The errors of a compact baseline. */
  lemma CompactErrorsIff(suite: Suite, f: Fields, p: Problem)
    requires Get(f, BaselineKind) != Null && !Read(suite, f).Crash?
    ensures p in ReadCompact(suite, f).problems <==> Faulty(suite, f, p)
  {
    CompactParts(suite, f);
    HeaderIff(suite, f, p);
    TransportsIff(Get(f, Transports));
    hide ReadCompact, HeaderProblems, HeaderFault, BothTransports, CoverageFault, BadRecord, SpelledTwice, Note, Texts;
    hide BucketProblems, Shows;
    var header := HeaderProblems(suite, f);
    var modes := Note(Get(f, RequiredModes) != Texts(suite.modes), WrongModes);
    var transports := Note(!BothTransports(Get(f, Transports)), WrongTransports);
    NoteHas(Get(f, RequiredModes) != Texts(suite.modes), WrongModes, p);
    NoteHas(!BothTransports(Get(f, Transports)), WrongTransports, p);
    if HasBuckets(f) {
      BucketProblemsIff(suite, f, p);
      InOneOf(p, header, modes, transports, BucketProblems(suite, f));
    } else {
      InOneOf(p, header, modes, transports, [NoIdentities]);
    }
    hide BucketOf;
  }

  lemma BucketProblemsIff(suite: Suite, f: Fields, p: Problem)
    requires HasBuckets(f) && !ReadCompact(suite, f).Crash?
    ensures p in BucketProblems(suite, f)
       <==> (p.NoBucket? && p.status != Skip && !BucketOf(f, p.status).Arr?)
            || (p == MalformedIdentity && (BadRecord(suite, BucketOf(f, Pass)) || BadRecord(suite, BucketOf(f, Fail))))
            || (p == DuplicateIdentity
                && (SpelledTwice(suite, BucketOf(f, Pass)) || SpelledTwice(suite, BucketOf(f, Fail))))
            || CoverageFault(suite, f, p)
  {
    BucketErrors(suite, f, p);
    if CoverageFault(suite, f, p) {
      CoverageHasMode(suite, f, p);
    }
    hide ReadCompact, ReadBucket, AllCoverageProblems, CoverageFault, BadRecord, SpelledTwice, Tagged, Selected;
    hide BucketOf;
  }

  /** The errors a compact baseline's buckets add, in themselves and in what they cover. */
  lemma BucketErrors(suite: Suite, f: Fields, p: Problem)
    requires HasBuckets(f) && !ReadCompact(suite, f).Crash?
    ensures
      var checks := Get(f, ChecksKey).fields;
      var passing := ReadBucket(suite, Get(checks, Passing), Pass);
      var failing := ReadBucket(suite, Get(checks, Failing), Fail);
      !passing.BucketCrash? && !failing.BucketCrash? &&
      var observed := Tagged(passing.ids, Pass) + Tagged(failing.ids, Fail);
      (p in passing.problems || p in failing.problems
       <==> (p.NoBucket? && p.status != Skip && !BucketOf(f, p.status).Arr?)
            || (p == MalformedIdentity && (BadRecord(suite, BucketOf(f, Pass)) || BadRecord(suite, BucketOf(f, Fail))))
            || (p == DuplicateIdentity
                && (SpelledTwice(suite, BucketOf(f, Pass)) || SpelledTwice(suite, BucketOf(f, Fail)))))
      && (p in AllCoverageProblems(suite, Selected(f), observed, suite.modes)
          <==> (p.IncompleteCatalog? || p.MissingCase? || p.MissingScenarios? || p.UnexpectedScenarios?)
               && p.mode in suite.modes && CoverageFault(suite, f, p))
  {
    var checks := Get(f, ChecksKey).fields;
    var passing := ReadBucket(suite, Get(checks, Passing), Pass);
    var failing := ReadBucket(suite, Get(checks, Failing), Fail);
    assert !passing.BucketCrash? && !failing.BucketCrash?;
    var observed := Tagged(passing.ids, Pass) + Tagged(failing.ids, Fail);
    assert observed == ReadCompact(suite, f).observed;
    hide AllCoverageProblems, CoverageFault, BadRecord, SpelledTwice, ReadBucket, BucketShows, HeaderProblems, Texts;
    hide Tagged, Selected, BothTransports;
    BucketIff(suite, Get(checks, Passing), Pass, p);
    BucketIff(suite, Get(checks, Failing), Fail, p);
    forall id, status ensures (id, status) in observed <==> Shows(suite, f, id, status) {
      CompactShowsIff(suite, f, (id, status));
    }
    hide ReadCompact, Shows;
    CoverageIff(suite, f, observed, suite.modes, p);
  }

  // ---------------------------------------------------------------- full reports

  /** The last case is for a version and transport that the table has already. */
  ghost predicate Repeats(suite: Suite, list: seq<Value>)
    requires list != []
  {
    exists mode, transport :: RepeatsAt(suite, list, mode, transport)
  }

  predicate RepeatsAt(suite: Suite, list: seq<Value>, mode: string, transport: string)
    requires list != []
  {
    var n := |list| - 1;
    mode in suite.modes && C.IsCase(list[n], mode, transport)
    && (mode, transport) in CollectCases(suite, list[..n]).cases
  }

  /** What one more case adds to the problems of the list. */
  lemma CasesStep(suite: Suite, list: seq<Value>, p: Problem)
    requires list != []
    ensures
      var n := |list| - 1;
      p in CollectCases(suite, list).problems
      <==> p in CollectCases(suite, list[..n]).problems || (p == MalformedCase && BadCase(suite, list[n]))
           || (p == DuplicateCase && Repeats(suite, list))
  {
    var n := |list| - 1;
    var v, was := list[n], CollectCases(suite, list[..n]);
    if v.Obj? && Get(v.fields, Mode).Str? && Get(v.fields, TransportKey).Str? {
      var mode, transport := Get(v.fields, Mode).s, Get(v.fields, TransportKey).s;
      assert C.IsCase(v, mode, transport);
      assert forall m, t | C.IsCase(v, m, t) :: m == mode && t == transport;
      assert Repeats(suite, list) <==> RepeatsAt(suite, list, mode, transport);
    }
  }

  lemma TwiceListed(suite: Suite, list: seq<Value>)
    requires list != []
    ensures ListedTwice(suite, list) <==> ListedTwice(suite, list[..|list| - 1]) || Repeats(suite, list)
  {
    var n := |list| - 1;
    var front := list[..n];
    forall mode, transport | mode in suite.modes
      ensures (mode, transport) in CollectCases(suite, front).cases
         <==> exists i: nat :: i < |front| && C.IsCase(front[i], mode, transport)
    {
      C.TableIff(suite, front, mode, transport);
    }
    hide CollectCases, C.IsCase;
    assert forall i | 0 <= i < n :: front[i] == list[i];
    if i, j, mode, transport :| 0 <= i < j < |list| && AreBoth(suite, list[i], list[j], mode, transport) {
      assert C.IsCase(front[i], mode, transport);
      if j < n {
        assert AreBoth(suite, front[i], front[j], mode, transport);
      } else {
        assert RepeatsAt(suite, list, mode, transport);
      }
    }
    if mode, transport :| RepeatsAt(suite, list, mode, transport) {
      var i: nat :| i < |front| && C.IsCase(front[i], mode, transport);
      assert AreBoth(suite, list[i], list[n], mode, transport);
    }
    if i, j, mode, transport :| 0 <= i < j < n && AreBoth(suite, front[i], front[j], mode, transport) {
      assert AreBoth(suite, list[i], list[j], mode, transport);
    }
  }

  lemma BadCaseAppend(suite: Suite, list: seq<Value>)
    requires list != []
    ensures
      var n := |list| - 1;
      SomeBadCase(suite, list) <==> SomeBadCase(suite, list[..n]) || BadCase(suite, list[n])
  {
    hide BadCase;
    var n := |list| - 1;
    assert forall i | 0 <= i < n :: list[..n][i] == list[i];
  }

  lemma {:induction false} CasesIff(suite: Suite, list: seq<Value>, p: Problem)
    ensures p in CollectCases(suite, list).problems
       <==> (p == MalformedCase && SomeBadCase(suite, list)) || (p == DuplicateCase && ListedTwice(suite, list))
  {
    if list == [] {
      EmptyListIsFine(suite);
    } else {
      hide CollectCases, BadCase, SomeBadCase, ListedTwice, Repeats;
      CasesIff(suite, list[..|list| - 1], p);
      CasesStep(suite, list, p);
      TwiceListed(suite, list);
      BadCaseAppend(suite, list);
    }
  }

  /** A list of checks leaves one kind of problem, if any check is not well-formed. */
  lemma {:induction false} ChecksIff(suite: Suite, mode: string, transport: Transport, raw: seq<Value>, p: Problem)
    requires !ReadChecks(suite, mode, transport, raw).Crash?
    ensures p in ReadChecks(suite, mode, transport, raw).problems
       <==> p == MalformedCheck(mode, transport) && !GoodChecks(raw)
  {
    if raw != [] {
      var n := |raw| - 1;
      ChecksIff(suite, mode, transport, raw[..n], p);
      GoodCheckReads(suite, mode, transport, raw[n]);
      GoodChecksAppend(raw);
      hide ReadCheck, GoodCheck, GoodChecks;
    }
  }

  /** The faults of the case for a version and transport. */
  ghost predicate CaseFault(suite: Suite, f: Fields, mode: string, transport: Transport, p: Problem) {
    (p == MissingCase(mode, transport) && CoverageFault(suite, f, p))
    || (p == NoChecks(mode, transport) && FullFault(suite, f, p))
    || (p == MalformedCheck(mode, transport) && FullFault(suite, f, p))
    || (transport == OfficialHttp && (p.MissingScenarios? || p.UnexpectedScenarios?) && p.mode == mode
        && CoverageFault(suite, f, p))
  }

  function ListOf(f: Fields): seq<Value> {
    if Get(f, Cases).Arr? then Get(f, Cases).items else []
  }

  /** Without the case, only its absence is a fault. */
  lemma AbsentCase(suite: Suite, f: Fields, mode: string, transport: Transport, p: Problem)
    requires Get(f, BaselineKind) == Null && mode in suite.modes && forall i: nat :: !IsRead(f, i, mode, transport)
    ensures CaseFault(suite, f, mode, transport, p) <==> p == MissingCase(mode, transport)
  {
    hide IsRead, ScenarioShown, RanCatalog;
  }

  /** With the case, the faults are those of its checks. */
  lemma PresentCase(suite: Suite, f: Fields, mode: string, transport: Transport, i: nat, p: Problem)
    requires Get(f, BaselineKind) == Null && mode in suite.modes && IsRead(f, i, mode, transport)
    ensures
      var raw := ChecksAt(f, i);
      CaseFault(suite, f, mode, transport, p)
      <==> (p == NoChecks(mode, transport) && !HasChecks(raw))
           || (p == MalformedCheck(mode, transport) && raw.Arr? && !GoodChecks(raw.items))
           || (transport == OfficialHttp && (p.MissingScenarios? || p.UnexpectedScenarios?) && p.mode == mode
               && CoverageFault(suite, f, p))
  {
    assert forall j: nat | IsRead(f, j, mode, transport) :: j == i by {
      C.OneFirst(Get(f, Cases).items, mode, TransportText(transport), i);
    }
    assert CasePresent(suite, f, mode, transport);
    hide IsRead, ScenarioShown, RanCatalog, GoodChecks, CasePresent;
    if p.MissingScenarios? || p.UnexpectedScenarios? {
      hide CoverageFault;
    }
  }

  lemma NoScenariosWithoutChecks(suite: Suite, f: Fields, mode: string, i: nat, p: Problem)
    requires Get(f, BaselineKind) == Null && IsRead(f, i, mode, OfficialHttp) && !HasChecks(ChecksAt(f, i))
    requires (p.MissingScenarios? || p.UnexpectedScenarios?) && p.mode == mode
    ensures !CoverageFault(suite, f, p)
  {
    C.OneFirst(Get(f, Cases).items, mode, TransportText(OfficialHttp), i);
    hide ScenarioShown;
  }

  lemma CaseErrorsIff(suite: Suite, f: Fields, mode: string, transport: Transport, p: Problem)
    requires Get(f, BaselineKind) == Null && mode in suite.modes
    requires !ReadCase(suite, CollectCases(suite, ListOf(f)).cases, mode, transport).Crash?
    ensures p in ReadCase(suite, CollectCases(suite, ListOf(f)).cases, mode, transport).problems
       <==> CaseFault(suite, f, mode, transport, p)
  {
    var name, list := TransportText(transport), ListOf(f);
    assert name == TransportName(transport);
    var cases := CollectCases(suite, list).cases;
    C.TableIff(suite, list, mode, name);
    hide CollectCases, CaseFault, ReadChecks, GoodChecks, ScenarioProblems, C.IsCase, CoverageFault;
    if (mode, name) !in cases {
      forall i: nat ensures !IsRead(f, i, mode, transport) {
      }
      AbsentCase(suite, f, mode, transport, p);
    } else {
      var n: nat :| n < |list| && C.IsCase(list[n], mode, name);
      var i := C.FirstExists(list, mode, name, n);
      assert IsRead(f, i, mode, transport);
      PresentCase(suite, f, mode, transport, i, p);
      var raw := ChecksAt(f, i);
      assert raw == Get(cases[(mode, name)], ChecksKey);
      if HasChecks(raw) {
        ChecksIff(suite, mode, transport, raw.items, p);
        if transport == OfficialHttp {
          HttpScenarios(suite, f, mode, i, p);
        }
      } else {
        NoBadChecks();
        if transport == OfficialHttp && (p.MissingScenarios? || p.UnexpectedScenarios?) && p.mode == mode {
          NoScenariosWithoutChecks(suite, f, mode, i, p);
        }
      }
    }
  }

  lemma NoBadChecks()
    ensures GoodChecks([])
  {
  }

  lemma HttpScenarios(suite: Suite, f: Fields, mode: string, i: nat, p: Problem)
    requires Get(f, BaselineKind) == Null && mode in suite.modes && IsRead(f, i, mode, OfficialHttp)
    requires HasChecks(ChecksAt(f, i)) && !ReadChecks(suite, mode, OfficialHttp, ChecksAt(f, i).items).Crash?
    ensures
      var observed := ReadChecks(suite, mode, OfficialHttp, ChecksAt(f, i).items).observed;
      p in ScenarioProblems(suite, mode, observed)
      <==> (p.MissingScenarios? || p.UnexpectedScenarios?) && p.mode == mode && CoverageFault(suite, f, p)
  {
    var raw := ChecksAt(f, i).items;
    var observed := ReadChecks(suite, mode, OfficialHttp, raw).observed;
    C.OneFirst(Get(f, Cases).items, mode, TransportText(OfficialHttp), i);
    assert Covering(f, mode);
    hide ReadChecks, ScenarioProblems, CoverageFault, SaidIn;
    forall id: Identity, status: Status | id.mode == mode && id.transport == OfficialHttp
      ensures (id, status) in observed <==> Shows(suite, f, id, status)
    {
      ChecksShow(suite, mode, OfficialHttp, raw, (id, status));
    }
    hide Shows;
    ObservedSees(suite, f, mode, observed);
    ScenariosIff(suite, f, mode, observed, p);
  }

  /** The faults of a version in a full report. */
  ghost predicate ModeFault(suite: Suite, f: Fields, mode: string, p: Problem) {
    (p == IncompleteCatalog(mode) && CoverageFault(suite, f, p))
    || CaseFault(suite, f, mode, Stdio, p) || CaseFault(suite, f, mode, OfficialHttp, p)
  }

  lemma ModeErrorsIff(suite: Suite, f: Fields, mode: string, p: Problem)
    requires Get(f, BaselineKind) == Null && mode in suite.modes
    requires !ReadMode(suite, CollectCases(suite, ListOf(f)).cases, Selected(f), mode).Crash?
    ensures p in ReadMode(suite, CollectCases(suite, ListOf(f)).cases, Selected(f), mode).problems
       <==> ModeFault(suite, f, mode, p)
  {
    hide CollectCases, ReadCase, CaseFault, Note, Selected, RunsCatalog;
    CaseErrorsIff(suite, f, mode, Stdio, p);
    CaseErrorsIff(suite, f, mode, OfficialHttp, p);
    RanCatalogIff(suite, f, mode);
    NoteHas(!RunsCatalog(suite, Selected(f), mode), IncompleteCatalog(mode), p);
    if p.IncompleteCatalog? {
      PlainFault(suite, f, p);
    }
    hide CoverageFault, RanCatalog;
  }

  lemma {:induction false} ModesErrorsIff(suite: Suite, f: Fields, modes: seq<string>, p: Problem)
    requires Get(f, BaselineKind) == Null && forall mode | mode in modes :: mode in suite.modes
    requires !ReadModes(suite, CollectCases(suite, ListOf(f)).cases, Selected(f), modes).Crash?
    ensures p in ReadModes(suite, CollectCases(suite, ListOf(f)).cases, Selected(f), modes).problems
       <==> exists mode :: mode in modes && ModeFault(suite, f, mode, p)
  {
    hide CollectCases, ReadMode, ModeFault, Selected;
    if modes != [] {
      var front, last := modes[..|modes| - 1], modes[|modes| - 1];
      assert modes == front + [last];
      ModesErrorsIff(suite, f, front, p);
      ModeErrorsIff(suite, f, last, p);
      assert last in modes && forall mode | mode in modes :: mode in front || mode == last;
      assert forall mode | mode in front :: mode in modes;
    }
  }

  /** A fault about a version is one of the faults of that version. */
  lemma ModeOfFault(suite: Suite, f: Fields, p: Problem)
    requires Get(f, BaselineKind) == Null
    ensures (exists mode :: mode in suite.modes && ModeFault(suite, f, mode, p))
       <==> CoverageFault(suite, f, p) || ((p.NoChecks? || p.MalformedCheck?) && FullFault(suite, f, p))
  {
    if CoverageFault(suite, f, p) {
      CoverageHasMode(suite, f, p);
      if p.MissingCase? {
        assert p.transport.Stdio? || p.transport.OfficialHttp?;
      }
      assert ModeFault(suite, f, p.mode, p);
    }
    if (p.NoChecks? || p.MalformedCheck?) && FullFault(suite, f, p) {
      assert p.transport.Stdio? || p.transport.OfficialHttp?;
      assert p.mode in suite.modes && ModeFault(suite, f, p.mode, p);
    }
    hide CoverageFault, FullFault;
  }

  /** The errors of a full report. */
  lemma FullErrorsIff(suite: Suite, f: Fields, p: Problem)
    requires Get(f, BaselineKind) == Null && !Read(suite, f).Crash?
    ensures p in ReadFull(suite, f).problems <==> Faulty(suite, f, p)
  {
    HeaderIff(suite, f, p);
    CasesIff(suite, ListOf(f), p);
    NoteHas(!Get(f, Cases).Arr?, NoCases, p);
    EmptyListIsFine(suite);
    hide HeaderProblems, HeaderFault, CollectCases, ReadModes, SomeBadCase, ListedTwice, Note, ModeFault, CoverageFault;
    ModesErrorsIff(suite, f, suite.modes, p);
    ModeOfFault(suite, f, p);
    FullFaultIs(suite, f, p);
    hide FullFault;
  }

  lemma EmptyListIsFine(suite: Suite)
    ensures !SomeBadCase(suite, []) && !ListedTwice(suite, [])
  {
  }

  lemma FullFaultIs(suite: Suite, f: Fields, p: Problem)
    ensures FullFault(suite, f, p)
       <==> (p == NoCases && !Get(f, Cases).Arr?)
            || (p == MalformedCase && Get(f, Cases).Arr? && SomeBadCase(suite, Get(f, Cases).items))
            || (p == DuplicateCase && Get(f, Cases).Arr? && ListedTwice(suite, Get(f, Cases).items))
            || ((p.NoChecks? || p.MalformedCheck?) && FullFault(suite, f, p))
  {
    hide SomeBadCase, ListedTwice, IsRead, GoodChecks;
  }

  /** Reading a report notes exactly its faults. */
  lemma ProblemIff(suite: Suite, f: Fields, p: Problem)
    requires !Read(suite, f).Crash?
    ensures p in Read(suite, f).problems <==> Faulty(suite, f, p)
  {
    hide ReadFull, ReadCompact, Faulty;
    if Get(f, BaselineKind) == Null {
      FullErrorsIff(suite, f, p);
    } else {
      CompactErrorsIff(suite, f, p);
    }
  }

  // ---------------------------------------------------------------- the errors of the verdict

  /** What an error of the gate says about the two reports. */
  ghost predicate Holds(suite: Suite, candidate: Fields, baseline: Fields, c: Complaint) {
    var here, there := Get(candidate, AutomaticAuthRequired), Get(baseline, AutomaticAuthRequired);
    match c
    case About(Baseline, p) => Faulty(suite, baseline, p)
    case About(Candidate, p) => Faulty(suite, candidate, p)
    case NoAuthPolicy => !here.Bool? || !there.Bool?
    case DifferentAuthPolicies => here.Bool? && there.Bool? && here != there
    case ShippingFailure(id) => id.mode == suite.shipping && Shows(suite, candidate, id, Fail)
    case BaselineShippingFailure(id) => id.mode == suite.shipping && Shows(suite, baseline, id, Fail)
  }

  lemma LabelledHas(side: Side, problems: seq<Problem>, c: Complaint)
    ensures c in Labelled(side, problems) <==> c.About? && c.side == side && c.problem in problems
  {
    if c.About? && c.side == side && c.problem in problems {
      var i :| 0 <= i < |problems| && problems[i] == c.problem;
      assert Labelled(side, problems)[i] == c;
    }
  }

  lemma ShippingHas(ids: seq<Identity>, side: Side, c: Complaint)
    ensures c in ShippingComplaints(ids, side)
       <==> if side == Candidate then c.ShippingFailure? && c.id in ids else c.BaselineShippingFailure? && c.id in ids
  {
    if (c.ShippingFailure? || c.BaselineShippingFailure?) && c.id in ids {
      var i :| 0 <= i < |ids| && ids[i] == c.id;
      assert ShippingComplaints(ids, side)[i] == if side == Candidate then ShippingFailure(c.id)
                                                 else BaselineShippingFailure(c.id);
    }
  }

  lemma ShippingShown(suite: Suite, f: Fields, id: Identity)
    requires Sorts(suite) && !Read(suite, f).Crash?
    ensures id in suite.sorted(FailedIn(ChecksOf(suite, f), suite.shipping))
       <==> id.mode == suite.shipping && Shows(suite, f, id, Fail)
  {
    ShownIff(suite, f, id, Fail);
    hide Read, Merged, Shows;
  }

  /** For any two reports the gate gives a verdict on, an error is given exactly if what it says is so. */
  lemma ErrorsIff(suite: Suite, candidate: Fields, baseline: Fields, c: Complaint)
    requires Sorts(suite) && Gate(suite, candidate, baseline).Some?
    ensures c in Gate(suite, candidate, baseline).value.errors <==> Holds(suite, candidate, baseline, c)
  {
    hide Read, Merged, Faulty, Shows, Sorts, Labelled, ShippingComplaints, FailedIn;
    var now, before := ChecksOf(suite, candidate), ChecksOf(suite, baseline);
    LabelledHas(Baseline, Read(suite, baseline).problems, c);
    LabelledHas(Candidate, Read(suite, candidate).problems, c);
    ShippingHas(suite.sorted(FailedIn(now, suite.shipping)), Candidate, c);
    ShippingHas(suite.sorted(FailedIn(before, suite.shipping)), Baseline, c);
    match c {
      case About(side, p) =>
        ProblemIff(suite, baseline, p);
        ProblemIff(suite, candidate, p);
      case ShippingFailure(id) =>
        ShippingShown(suite, candidate, id);
      case BaselineShippingFailure(id) =>
        ShippingShown(suite, baseline, id);
      case _ =>
    }
  }
}
