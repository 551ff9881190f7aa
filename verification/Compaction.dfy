/**
 Compacting a baseline (scripts/mcp_conformance/run_codex_compliance.py) and what it keeps.
 */
module Compaction {
  import opened JsonValue
  import opened Listing
  import opened GateRelation
  import opened RegressionReport
  import opened RegressionGate
  import opened ReportFacts

  function Record(id: Identity): Value {
    Obj(map[Mode := Str(id.mode), TransportKey := Str(TransportName(id.transport)),
            SourceKey := Str(SourceName(id.source)), Scenario := Str(id.scenario), CheckId := Str(id.checkId)])
  }

  function Records(ids: seq<Identity>): seq<Value> {
    seq(|ids|, i requires 0 <= i < |ids| => Record(ids[i]))
  }

  function WithStatus(checks: Checks, status: Status): set<Identity> {
    set id | id in checks && status in checks[id]
  }

  function CatalogOf(suite: Suite, selected: Fields): Fields {
    map key | key in (set mode | mode in suite.modes :: Other(mode)) :: Get(selected, key)
  }

  function CompactForm(suite: Suite, f: Fields, checks: Checks): Fields {
    map[
      BaselineKind := Str(COMPACT_KIND),
      SchemaVersion := Int(SCHEMA_VERSION),
      RequiredModes := Texts(suite.modes),
      Transports := Arr([Str("stdio"), Str("official-http")]),
      VersionCheck := Obj(map[Success := Bool(true)]),
      ModernFeatureEnablement := Bool(true),
      AutomaticAuthRequired := Get(f, AutomaticAuthRequired),
      OfficialConformance := Obj(map[
        Repository := Str(suite.repository), GitRef := Str(suite.gitRef), AuthenticationIncluded := Bool(true),
        Scenarios := Obj(CatalogOf(suite, Selected(f)))]),
      ChecksKey := Obj(map[
        Passing := Arr(Records(suite.sorted(WithStatus(checks, Pass)))),
        Failing := Arr(Records(suite.sorted(WithStatus(checks, Fail))))])]
  }

  /** The compact baseline of a usable report without shipping failures; anything else raises. */
  function Compact(suite: Suite, f: Fields): Outcome<Fields> {
    if Readable(suite, f) && FailedIn(ChecksOf(suite, f), suite.shipping) == {}
    then Ok(CompactForm(suite, f, ChecksOf(suite, f)))
    else Raise
  }

  function NotSkipped(observed: set<Observation>): set<Observation> {
    set o | o in observed && o.1 != Skip
  }

  /** Every required case and every catalogued scenario has a check that was not skipped. */
  predicate CoveredWithoutSkips(suite: Suite, observed: set<Observation>) {
    forall mode | mode in suite.modes ::
      Covers(NotSkipped(observed), mode, Stdio) && Covers(NotSkipped(observed), mode, OfficialHttp)
      && SetOf(suite.catalog(mode)) <= ObservedScenarios(NotSkipped(observed), mode)
  }

  // ---------------------------------------------------------------- reading a compact form

  lemma RecordReads(suite: Suite, id: Identity)
    requires id.mode in suite.modes && id.checkId != ""
    ensures ReadRecord(suite, Record(id)) == Good(id)
  {
    NamesParse(id.transport, id.source);
    hide ParseTransport, ParseSource, TransportName, SourceName;
  }

  lemma RecordsAppend(ids: seq<Identity>)
    requires ids != []
    ensures var n := |ids| - 1; Records(ids) == Records(ids[..n]) + [Record(ids[n])]
  {
    hide Record;
  }

  lemma ReadAppend(suite: Suite, records: seq<Value>, v: Value, ids: set<Identity>, id: Identity)
    requires ReadRecords(suite, records) == Bucket([], ids) && ReadRecord(suite, v) == Good(id) && id !in ids
    ensures ReadRecords(suite, records + [v]) == Bucket([], ids + {id})
  {
    hide ReadRecord;
    assert (records + [v])[..|records|] == records;
  }

  lemma {:induction false} RecordsRead(suite: Suite, ids: seq<Identity>)
    requires forall i | 0 <= i < |ids| :: ids[i].mode in suite.modes && ids[i].checkId != ""
    requires Distinct(ids)
    ensures ReadRecords(suite, Records(ids)) == Bucket([], set id | id in ids)
  {
    if ids != [] {
      var n := |ids| - 1;
      RecordsRead(suite, ids[..n]);
      RecordReads(suite, ids[n]);
      RecordsAppend(ids);
      DistinctAppend(ids);
      hide ReadRecord, ReadRecords, Record, Records;
      ReadAppend(suite, Records(ids[..n]), Record(ids[n]), (set id | id in ids[..n]), ids[n]);
    }
  }

  lemma SortedRead(suite: Suite, ids: set<Identity>)
    requires Sorts(suite) && forall id | id in ids :: id.mode in suite.modes && id.checkId != ""
    ensures ReadRecords(suite, Records(suite.sorted(ids))) == Bucket([], ids)
  {
    var l := suite.sorted(ids);
    assert forall i | 0 <= i < |l| :: l[i] in l;
    RecordsRead(suite, l);
    assert (set id | id in l) == ids;
  }

  lemma CompactHeader(suite: Suite, f: Fields, checks: Checks)
    ensures
      var c := CompactForm(suite, f, checks);
      HeaderProblems(suite, c) == [] && Get(c, BaselineKind) == Str(COMPACT_KIND)
      && Get(c, RequiredModes) == Texts(suite.modes)
      && Get(c, Transports) == Arr([Str("stdio"), Str("official-http")])
      && Get(c, AutomaticAuthRequired) == Get(f, AutomaticAuthRequired)
      && Get(c, ChecksKey) == Obj(map[
           Passing := Arr(Records(suite.sorted(WithStatus(checks, Pass)))),
           Failing := Arr(Records(suite.sorted(WithStatus(checks, Fail))))])
      && Selected(c) == CatalogOf(suite, Selected(f))
  {
    hide CatalogOf, Records, Texts;
  }

  lemma CatalogKept(suite: Suite, f: Fields, mode: string)
    requires mode in suite.modes
    ensures Get(CatalogOf(suite, Selected(f)), Other(mode)) == Get(Selected(f), Other(mode))
  {
    var keys := set m | m in suite.modes :: Other(m);
    assert Other(mode) in keys;
  }

  lemma TwoTransports()
    ensures BothTransports(Arr([Str("stdio"), Str("official-http")]))
  {
    var items: seq<Value> := [Str("stdio"), Str("official-http")];
    assert items[0] in items && items[1] in items;
    assert (set v | v in items) == {Str("stdio"), Str("official-http")};
  }

  /** Reading a compact form gives back the observations that were not skipped. */
  lemma CompactFormReads(suite: Suite, f: Fields, observed: set<Observation>)
    requires Sorts(suite) && Wellformed(suite, observed) && CatalogRun(suite, f)
    ensures
      var r := Read(suite, CompactForm(suite, f, Merged(observed)));
      r.Reading? && r.observed == NotSkipped(observed)
      && (r.problems == [] <==> Complete(suite, NotSkipped(observed)))
  {
    var checks := Merged(observed);
    var c := CompactForm(suite, f, checks);
    CompactHeader(suite, f, checks);
    TwoTransports();
    var passing, failing := WithStatus(checks, Pass), WithStatus(checks, Fail);
    MergedWellformed(suite, observed);
    SortedRead(suite, passing);
    SortedRead(suite, failing);
    TaggedIsNotSkipped(observed);
    hide CompactForm, HeaderProblems, ReadRecords, Records, BothTransports, Merged, WithStatus, Sorts, Texts;
    var kept := NotSkipped(observed);
    assert Get(c, BaselineKind) != Null;
    CompactBodyReads(suite, c, passing, failing);
    CoverageIff(suite, Selected(c), kept, suite.modes);
    forall mode | mode in suite.modes ensures RunsCatalog(suite, Selected(c), mode) {
      CatalogKept(suite, f, mode);
      assert RunsCatalog(suite, Selected(f), mode);
    }
  }

  lemma CompactBodyReads(suite: Suite, c: Fields, passing: set<Identity>, failing: set<Identity>)
    requires HeaderProblems(suite, c) == [] && Get(c, BaselineKind) == Str(COMPACT_KIND)
    requires Get(c, RequiredModes) == Texts(suite.modes)
    requires Get(c, Transports) == Arr([Str("stdio"), Str("official-http")]) && BothTransports(Get(c, Transports))
    requires Get(c, ChecksKey) == Obj(map[
           Passing := Arr(Records(suite.sorted(passing))), Failing := Arr(Records(suite.sorted(failing)))])
    requires ReadRecords(suite, Records(suite.sorted(passing))) == Bucket([], passing)
    requires ReadRecords(suite, Records(suite.sorted(failing))) == Bucket([], failing)
    ensures
      var observed := Tagged(passing, Pass) + Tagged(failing, Fail);
      Read(suite, c) == Reading(AllCoverageProblems(suite, Selected(c), observed, suite.modes), observed)
  {
    hide HeaderProblems, ReadRecords, Records, BothTransports, Texts, Selected, AllCoverageProblems, Tagged;
    var checks := Get(c, ChecksKey);
    assert Get(checks.fields, Passing) == Arr(Records(suite.sorted(passing)));
    assert Get(checks.fields, Failing) == Arr(Records(suite.sorted(failing)));
    assert forall v | v in Get(c, Transports).items :: Hashable(v);
  }

  lemma MergedWellformed(suite: Suite, observed: set<Observation>)
    requires Wellformed(suite, observed)
    ensures forall id | id in Merged(observed) :: id.mode in suite.modes && id.checkId != ""
  {
  }

  lemma TaggedIsNotSkipped(observed: set<Observation>)
    ensures Tagged(WithStatus(Merged(observed), Pass), Pass) + Tagged(WithStatus(Merged(observed), Fail), Fail)
         == NotSkipped(observed)
  {
    forall o | o in NotSkipped(observed)
      ensures o.0 in WithStatus(Merged(observed), o.1)
    {
      assert o.0 in Identities(observed) && o.1 in StatusesIn(observed, o.0);
    }
  }

  lemma MergedNotSkipped(observed: set<Observation>)
    ensures Merged(NotSkipped(observed)) == WithoutSkips(Merged(observed))
  {
    var a, b := Merged(NotSkipped(observed)), WithoutSkips(Merged(observed));
    forall id ensures id in a <==> id in b {
      if id in b {
        var st := if Pass in StatusesIn(observed, id) then Pass else Fail;
        assert st in StatusesIn(observed, id);
        assert (id, st) in observed;
        assert (id, st) in NotSkipped(observed);
      }
    }
    forall id | id in a ensures a[id] == b[id] {
      assert StatusesIn(NotSkipped(observed), id) == StatusesIn(observed, id) - {Skip};
    }
  }

  lemma CoveredIff(suite: Suite, observed: set<Observation>)
    requires Complete(suite, observed)
    ensures Complete(suite, NotSkipped(observed)) <==> CoveredWithoutSkips(suite, observed)
  {
    forall mode | mode in suite.modes
      ensures CompleteIn(suite, NotSkipped(observed), mode)
        <==> Covers(NotSkipped(observed), mode, Stdio) && Covers(NotSkipped(observed), mode, OfficialHttp)
             && SetOf(suite.catalog(mode)) <= ObservedScenarios(NotSkipped(observed), mode)
    {
      assert CompleteIn(suite, observed, mode);
      assert ObservedScenarios(NotSkipped(observed), mode) <= ObservedScenarios(observed, mode);
    }
  }

  // ---------------------------------------------------------------- what compaction keeps

  /** What is known of a baseline that compacts and of its compact form. */
  lemma CompactedReading(suite: Suite, f: Fields)
    requires Sorts(suite) && Compact(suite, f).Ok?
    ensures
      var observed := Read(suite, f).observed;
      var r := Read(suite, Compact(suite, f).value);
      r.Reading? && r.observed == NotSkipped(observed)
      && Merged(r.observed) == WithoutSkips(Merged(observed))
      && (r.problems == [] <==> CoveredWithoutSkips(suite, observed))
      && Get(Compact(suite, f).value, AutomaticAuthRequired) == Get(f, AutomaticAuthRequired)
  {
    hide Read, CompactForm, Complete, CoveredWithoutSkips, Merged;
    var observed := Read(suite, f).observed;
    CleanFacts(suite, f);
    CompactFormReads(suite, f, observed);
    MergedNotSkipped(observed);
    CoveredIff(suite, observed);
    CompactHeader(suite, f, Merged(observed));
  }

  lemma SameJudgement(suite: Suite, now: Checks, before: Checks, notes: seq<Complaint>)
    ensures Judge(suite, now, WithoutSkips(before), notes) == Judge(suite, now, before, notes)
  {
    SkipsDoNotMatter(now, before, suite.shipping);
    hide WithoutSkips, NewFailures, KnownFailures, MissingChecks, FixedChecks, FailedIn, ShippingComplaints;
  }

  /**
   Gating against the compact form gives the same verdict, with the same errors and the same
   four lists, when every required case and scenario has a check that was not skipped.
   */
  lemma CompactionPreserves(suite: Suite, baseline: Fields, candidate: Fields)
    requires Sorts(suite) && Compact(suite, baseline).Ok?
    requires CoveredWithoutSkips(suite, Read(suite, baseline).observed)
    ensures Gate(suite, candidate, Compact(suite, baseline).value) == Gate(suite, candidate, baseline)
  {
    hide Read, Merged, CoveredWithoutSkips, Judge, WithoutSkips, Labelled, CompactForm, FailedIn;
    assert Clean(Read(suite, baseline));
    hide Compact;
    var compact := Compact(suite, baseline).value;
    CompactedReading(suite, baseline);
    if Read(suite, candidate).Reading? {
      var notes := Labelled(Baseline, []) + Labelled(Candidate, Read(suite, candidate).problems)
        + AuthComplaints(candidate, baseline);
      SameJudgement(suite, Merged(Read(suite, candidate).observed), Merged(Read(suite, baseline).observed), notes);
    }
  }

  /** Without that condition the compact form fails a candidate that the report itself passes. */
  lemma CompactionNeedsCoverage(suite: Suite, baseline: Fields)
    requires Sorts(suite) && Compact(suite, baseline).Ok?
    requires !CoveredWithoutSkips(suite, Read(suite, baseline).observed)
    ensures Passes(suite, baseline, baseline)
    ensures !Passes(suite, baseline, Compact(suite, baseline).value)
  {
    var compact := Compact(suite, baseline).value;
    CompactedReading(suite, baseline);
    GateReflexive(suite, baseline);
    hide Read, Compact, Gate, Passes, Merged;
    PassesIff(suite, baseline, compact);
  }

  /** Compaction keeps the gate's decision for every candidate exactly under that condition. */
  lemma CompactionPreservesIff(suite: Suite, baseline: Fields)
    requires Sorts(suite) && Compact(suite, baseline).Ok?
    ensures
      var compact := Compact(suite, baseline).value;
      (forall candidate: Fields :: Passes(suite, candidate, compact) == Passes(suite, candidate, baseline))
      <==> CoveredWithoutSkips(suite, Read(suite, baseline).observed)
  {
    hide Read, Gate, CoveredWithoutSkips, CompactForm, FailedIn;
    assert Clean(Read(suite, baseline));
    hide Compact;
    var compact := Compact(suite, baseline).value;
    if CoveredWithoutSkips(suite, Read(suite, baseline).observed) {
      forall candidate: Fields ensures Passes(suite, candidate, compact) == Passes(suite, candidate, baseline) {
        CompactionPreserves(suite, baseline, candidate);
      }
    } else {
      CompactionNeedsCoverage(suite, baseline);
    }
  }

  lemma WithStatusNotSkipped(checks: Checks, status: Status)
    requires status != Skip
    ensures WithStatus(WithoutSkips(checks), status) == WithStatus(checks, status)
  {
  }

  /** Under the same condition compacting again changes nothing; without it, it raises. */
  lemma CompactAgain(suite: Suite, f: Fields)
    requires Sorts(suite) && Compact(suite, f).Ok?
    ensures Compact(suite, Compact(suite, f).value)
      == if CoveredWithoutSkips(suite, Read(suite, f).observed) then Compact(suite, f) else Raise
  {
    var c := Compact(suite, f).value;
    CompactedReading(suite, f);
    hide Read, Merged, CoveredWithoutSkips;
    var checks := Merged(Read(suite, f).observed);
    SkipsDoNotMatter(checks, checks, suite.shipping);
    if CoveredWithoutSkips(suite, Read(suite, f).observed) {
      CompactHeader(suite, f, checks);
      WithStatusNotSkipped(checks, Pass);
      WithStatusNotSkipped(checks, Fail);
      hide WithoutSkips, WithStatus, FailedIn, Records, Texts, Selected;
      CatalogAgain(suite, Selected(f));
      assert CompactForm(suite, c, WithoutSkips(checks)) == CompactForm(suite, f, checks);
    }
  }

  lemma CatalogAgain(suite: Suite, selected: Fields)
    ensures CatalogOf(suite, CatalogOf(suite, selected)) == CatalogOf(suite, selected)
  {
  }
}
