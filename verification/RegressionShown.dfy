/**
 What any conformance report shows (scripts/mcp_conformance/run_codex_compliance.py), also one
 that is partly malformed: its well-formed checks count, the others do not. The four lists of
 the gate are about these.
 */
module RegressionShown {
  import opened JsonValue
  import opened Listing
  import opened GateRelation
  import opened RegressionReport
  import opened RegressionGate
  import opened RegressionClean
  import opened RegressionVerdict
  import opened ReportFacts
  import opened Compaction
  import C = RegressionCrash

  // ---------------------------------------------------------------- full reports

  /** The case shows what its well-formed checks say. */
  predicate CaseShows(suite: Suite, v: Value, o: Observation) {
    v.Obj? && Get(v.fields, ChecksKey).Arr?
    && SaidIn(suite, o.0.mode, o.0.transport, Get(v.fields, ChecksKey).items, o)
  }

  /** Of several cases for one version and transport only the first is read. */
  ghost predicate ListShows(suite: Suite, list: seq<Value>, o: Observation) {
    exists i: nat :: C.FirstCase(list, i, o.0.mode, TransportText(o.0.transport)) && CaseShows(suite, list[i], o)
  }

  lemma {:induction false} ChecksShow(suite: Suite, mode: string, transport: Transport, raw: seq<Value>, o: Observation)
    requires !ReadChecks(suite, mode, transport, raw).Crash?
    ensures o in ReadChecks(suite, mode, transport, raw).observed <==> SaidIn(suite, mode, transport, raw, o)
  {
    hide ReadCheck, Says;
    if raw != [] {
      var last := raw[|raw| - 1];
      ChecksShow(suite, mode, transport, raw[..|raw| - 1], o);
      SaidInAppend(suite, mode, transport, raw, o);
      CheckIff(suite, mode, transport, last, o);
      hide SaidIn;
    }
  }

  lemma SaysItsCase(suite: Suite, mode: string, transport: Transport, raw: seq<Value>, o: Observation)
    requires SaidIn(suite, mode, transport, raw, o)
    ensures o.0.mode == mode && o.0.transport == transport
  {
  }

  lemma NothingSaid(suite: Suite, mode: string, transport: Transport, o: Observation)
    ensures !SaidIn(suite, mode, transport, [], o)
  {
  }

  /** What is read of one case. */
  lemma CaseShowsIff(suite: Suite, list: seq<Value>, mode: string, transport: Transport, o: Observation)
    requires mode in suite.modes && !ReadCase(suite, CollectCases(suite, list).cases, mode, transport).Crash?
    ensures o in ReadCase(suite, CollectCases(suite, list).cases, mode, transport).observed
       <==> o.0.mode == mode && o.0.transport == transport && ListShows(suite, list, o)
  {
    hide CollectCases, ReadChecks, ScenarioProblems, SaidIn, C.IsCase;
    var name := TransportText(transport);
    assert name == TransportName(transport);
    var cases := CollectCases(suite, list).cases;
    C.TableIff(suite, list, mode, name);
    if (mode, name) in cases {
      var n: nat :| n < |list| && C.IsCase(list[n], mode, name);
      var i := C.FirstExists(list, mode, name, n);
      C.OneFirst(list, mode, name, i);
      var raw := Get(cases[(mode, name)], ChecksKey);
      NothingSaid(suite, mode, transport, o);
      if raw.Arr? && raw.items != [] {
        ChecksShow(suite, mode, transport, raw.items, o);
        if SaidIn(suite, mode, transport, raw.items, o) {
          SaysItsCase(suite, mode, transport, raw.items, o);
        }
      }
    }
  }

  lemma {:induction false} ModesShow(
      suite: Suite, list: seq<Value>, selected: Fields, modes: seq<string>, o: Observation)
    requires forall mode | mode in modes :: mode in suite.modes
    requires !ReadModes(suite, CollectCases(suite, list).cases, selected, modes).Crash?
    ensures o in ReadModes(suite, CollectCases(suite, list).cases, selected, modes).observed
       <==> o.0.mode in modes && ListShows(suite, list, o)
  {
    hide CollectCases, ReadCase, ListShows, RunsCatalog;
    if modes != [] {
      var front, last := modes[..|modes| - 1], modes[|modes| - 1];
      assert modes == front + [last];
      ModesShow(suite, list, selected, front, o);
      CaseShowsIff(suite, list, last, Stdio, o);
      CaseShowsIff(suite, list, last, OfficialHttp, o);
    }
  }

  // ---------------------------------------------------------------- compact baselines

  /** Some well-formed record of the bucket spells the identity. */
  predicate BucketShows(suite: Suite, v: Value, id: Identity) {
    v.Arr? && exists i :: 0 <= i < |v.items| && GoodRecord(suite, v.items[i]) && Spells(v.items[i], id)
  }

  lemma {:induction false} RecordsShow(suite: Suite, records: seq<Value>, id: Identity)
    requires !ReadRecords(suite, records).BucketCrash?
    ensures id in ReadRecords(suite, records).ids <==> BucketShows(suite, Arr(records), id)
  {
    hide ReadRecord, GoodRecord, Spells;
    if records != [] {
      var n := |records| - 1;
      RecordsShow(suite, records[..n], id);
      RecordIff(suite, records[n], id);
      assert BucketShows(suite, Arr(records), id)
        <==> BucketShows(suite, Arr(records[..n]), id)
             || (GoodRecord(suite, records[n]) && Spells(records[n], id)) by
      {
        assert forall i | 0 <= i < n :: records[..n][i] == records[i];
      }
      hide BucketShows;
    }
  }

  lemma BucketShowsIff(suite: Suite, v: Value, status: Status, id: Identity)
    requires !ReadBucket(suite, v, status).BucketCrash?
    ensures id in ReadBucket(suite, v, status).ids <==> BucketShows(suite, v, id)
  {
    hide ReadRecords;
    if v.Arr? {
      RecordsShow(suite, v.items, id);
    }
  }

  // ---------------------------------------------------------------- any report

  predicate IsCompact(f: Fields) {
    Get(f, BaselineKind) == Str("mcp-conformance-regression-baseline-v1")
  }

  /** What a report of either form shows; a baseline of an unknown kind shows nothing. */
  ghost predicate Shows(suite: Suite, f: Fields, id: Identity, status: Status) {
    if Get(f, BaselineKind) == Null
    then id.mode in suite.modes && Get(f, Cases).Arr? && ListShows(suite, Get(f, Cases).items, (id, status))
    else IsCompact(f) && BucketShows(suite, BucketOf(f, status), id)
  }

  lemma CompactShowsIff(suite: Suite, f: Fields, o: Observation)
    requires !ReadCompact(suite, f).Crash?
    ensures o in ReadCompact(suite, f).observed <==> IsCompact(f) && BucketShows(suite, BucketOf(f, o.1), o.0)
  {
    hide HeaderProblems, ReadBucket, BucketShows, AllCoverageProblems, Texts, BothTransports;
    var checks := Get(f, ChecksKey);
    NullShowsNothing(suite, o.0);
    if IsCompact(f) && checks.Obj? {
      BucketShowsIff(suite, Get(checks.fields, Passing), Pass, o.0);
      BucketShowsIff(suite, Get(checks.fields, Failing), Fail, o.0);
    }
  }

  lemma NullShowsNothing(suite: Suite, id: Identity)
    ensures !BucketShows(suite, Null, id)
  {
  }

  /** What is read of any report is exactly what it shows. */
  lemma ShownIff(suite: Suite, f: Fields, id: Identity, status: Status)
    requires !Read(suite, f).Crash?
    ensures Has(ChecksOf(suite, f), id, status) <==> Shows(suite, f, id, status)
    ensures (id, status) in Read(suite, f).observed <==> Shows(suite, f, id, status)
  {
    hide ReadCompact, CollectCases, ReadModes, HeaderProblems, ListShows, BucketShows, Merged, Has;
    MergedHas(Read(suite, f).observed, id, status);
    if Get(f, BaselineKind) == Null {
      var list := Get(f, Cases);
      var items := if list.Arr? then list.items else [];
      ModesShow(suite, items, Selected(f), suite.modes, (id, status));
      NoCasesShowNothing(suite, (id, status));
    } else {
      CompactShowsIff(suite, f, (id, status));
    }
  }

  lemma NoCasesShowNothing(suite: Suite, o: Observation)
    ensures !ListShows(suite, [], o)
  {
  }

  /** A usable report shows what it states. */
  lemma UsableShows(suite: Suite, f: Fields, id: Identity, status: Status)
    requires Usable(suite, f)
    ensures Shows(suite, f, id, status) <==> States(suite, f, id, status)
  {
    UsableIff(suite, f);
    hide Usable, Shows, States, Read;
    ShownIff(suite, f, id, status);
    StatedIff(suite, f, id, status);
  }

  // ---------------------------------------------------------------- the four lists

  /** The list holds each of its identities once, in order. */
  ghost predicate InSortedOrder(suite: Suite, ids: seq<Identity>) {
    ids == suite.sorted(set id | id in ids)
  }

  lemma SortedInOrder(suite: Suite, s: set<Identity>)
    requires Sorts(suite)
    ensures InSortedOrder(suite, suite.sorted(s)) && forall id :: id in suite.sorted(s) <==> id in s
  {
    assert (set id | id in suite.sorted(s)) == s;
  }

  /** For any two reports the gate gives a verdict on, however much is wrong with them: what is listed. */
  lemma ListsIff(suite: Suite, candidate: Fields, baseline: Fields, id: Identity)
    requires Sorts(suite) && Gate(suite, candidate, baseline).Some?
    ensures
      var r := Gate(suite, candidate, baseline).value;
      (id in r.newFailures <==> Shows(suite, candidate, id, Fail) && !Shows(suite, baseline, id, Fail))
      && (id in r.knownFailures <==> Shows(suite, candidate, id, Fail) && Shows(suite, baseline, id, Fail))
      && (id in r.missingChecks
          <==> !Shows(suite, candidate, id, Pass)
               && (Shows(suite, baseline, id, Pass)
                   || (Shows(suite, baseline, id, Fail) && !Shows(suite, candidate, id, Fail))))
      && (id in r.fixedChecks
          <==> Shows(suite, baseline, id, Fail) && Shows(suite, candidate, id, Pass)
               && !Shows(suite, candidate, id, Fail))
    ensures
      var r := Gate(suite, candidate, baseline).value;
      InSortedOrder(suite, r.newFailures) && InSortedOrder(suite, r.knownFailures)
      && InSortedOrder(suite, r.missingChecks) && InSortedOrder(suite, r.fixedChecks)
  {
    var now, before := ChecksOf(suite, candidate), ChecksOf(suite, baseline);
    SortedInOrder(suite, NewFailures(now, before));
    SortedInOrder(suite, KnownFailures(now, before));
    SortedInOrder(suite, MissingChecks(now, before));
    SortedInOrder(suite, FixedChecks(now, before));
    hide Shows, Read, Merged, Sorts, InSortedOrder;
    forall status
      ensures (Has(now, id, status) <==> Shows(suite, candidate, id, status))
        && (Has(before, id, status) <==> Shows(suite, baseline, id, status))
    {
      ShownIff(suite, candidate, id, status);
      ShownIff(suite, baseline, id, status);
    }
  }

  // ---------------------------------------------------------------- the compact document

  /** The records spell these identities one by one and hold nothing else. */
  predicate Spelling(items: seq<Value>, ids: seq<Identity>) {
    |ids| == |items|
    && forall i | 0 <= i < |ids| ::
         Spells(items[i], ids[i]) && items[i].fields.Keys == {Mode, TransportKey, SourceKey, Scenario, CheckId}
  }

  /** The records spell all the results of one status, in order. */
  ghost predicate ListsAll(suite: Suite, f: Fields, v: Value, status: Status) {
    v.Arr? && exists ids :: Spelling(v.items, ids) && InSortedOrder(suite, ids) && StatesExactly(suite, f, ids, status)
  }

  ghost predicate StatesExactly(suite: Suite, f: Fields, ids: seq<Identity>, status: Status) {
    forall id :: id in ids <==> States(suite, f, id, status)
  }

  /** The catalogs of the required versions. */
  ghost predicate KeepsCatalogs(suite: Suite, g: Fields) {
    g.Keys == (set mode | mode in suite.modes :: Other(mode))
    && forall mode | mode in suite.modes :: g[Other(mode)] == Texts(suite.catalog(mode))
  }

  /** The header of the compact baseline of a report, field by field. */
  predicate HeadedAs(suite: Suite, f: Fields, c: Fields) {
    c.Keys == {BaselineKind, SchemaVersion, RequiredModes, Transports, VersionCheck, ModernFeatureEnablement,
               AutomaticAuthRequired, OfficialConformance, ChecksKey}
    && c[BaselineKind] == Str("mcp-conformance-regression-baseline-v1") && c[SchemaVersion] == Int(4)
    && c[RequiredModes] == Texts(suite.modes) && c[Transports] == Arr([Str("stdio"), Str("official-http")])
    && c[VersionCheck] == Obj(map[Success := Bool(true)]) && c[ModernFeatureEnablement] == Bool(true)
    && c[AutomaticAuthRequired] == Get(f, AutomaticAuthRequired)
  }

  ghost predicate RunAs(suite: Suite, official: Value) {
    official.Obj? && official.fields.Keys == {Repository, GitRef, AuthenticationIncluded, Scenarios}
    && official.fields[Repository] == Str(suite.repository) && official.fields[GitRef] == Str(suite.gitRef)
    && official.fields[AuthenticationIncluded] == Bool(true)
    && official.fields[Scenarios].Obj? && KeepsCatalogs(suite, official.fields[Scenarios].fields)
  }

  ghost predicate ResultsAs(suite: Suite, f: Fields, checks: Value) {
    checks.Obj? && checks.fields.Keys == {Passing, Failing}
    && ListsAll(suite, f, checks.fields[Passing], Pass) && ListsAll(suite, f, checks.fields[Failing], Fail)
  }

  lemma RecordsSpell(ids: seq<Identity>)
    ensures Spelling(Records(ids), ids)
  {
    forall i | 0 <= i < |ids|
      ensures Spells(Record(ids[i]), ids[i])
        && Record(ids[i]).fields.Keys == {Mode, TransportKey, SourceKey, Scenario, CheckId}
    {
      RecordSpells(ids[i]);
    }
    hide Spells, Record;
  }

  lemma RecordSpells(id: Identity)
    ensures Spells(Record(id), id)
    ensures Record(id).fields.Keys == {Mode, TransportKey, SourceKey, Scenario, CheckId}
  {
  }

  lemma RecordsListAll(suite: Suite, f: Fields, status: Status)
    requires Sorts(suite) && Readable(suite, f)
    ensures ListsAll(suite, f, Arr(Records(suite.sorted(WithStatus(ChecksOf(suite, f), status)))), status)
  {
    hide Read, States, Spelling, InSortedOrder, Merged, Records;
    var checks := ChecksOf(suite, f);
    var ids := suite.sorted(WithStatus(checks, status));
    SortedInOrder(suite, WithStatus(checks, status));
    hide Sorts;
    forall id ensures id in ids <==> States(suite, f, id, status) {
      StatedIff(suite, f, id, status);
      HasStatus(checks, id, status);
    }
    assert StatesExactly(suite, f, ids, status);
    RecordsSpell(ids);
  }

  lemma HasStatus(checks: Checks, id: Identity, status: Status)
    ensures id in WithStatus(checks, status) <==> Has(checks, id, status)
  {
  }

  /** Compacting writes exactly this document. */
  lemma CompactDocument(suite: Suite, f: Fields)
    requires Sorts(suite) && Compact(suite, f).Ok?
    ensures
      var c := Compact(suite, f).value;
      HeadedAs(suite, f, c) && RunAs(suite, c[OfficialConformance]) && ResultsAs(suite, f, c[ChecksKey])
  {
    hide Read, Sorts, FailedIn, States, ListsAll, KeepsCatalogs, Records, WithStatus, CatalogOf;
    RecordsListAll(suite, f, Pass);
    RecordsListAll(suite, f, Fail);
    CatalogsKept(suite, f);
    FormHeaded(suite, f, ChecksOf(suite, f));
  }

  lemma FormHeaded(suite: Suite, f: Fields, checks: Checks)
    ensures HeadedAs(suite, f, CompactForm(suite, f, checks))
  {
    hide CatalogOf, Records, WithStatus, Texts;
  }

  lemma CatalogsKept(suite: Suite, f: Fields)
    requires Readable(suite, f)
    ensures KeepsCatalogs(suite, CatalogOf(suite, Selected(f)))
  {
    CleanFacts(suite, f);
    var g := CatalogOf(suite, Selected(f));
    forall mode | mode in suite.modes ensures Other(mode) in g && g[Other(mode)] == Texts(suite.catalog(mode)) {
      CatalogKept(suite, f, mode);
      assert RunsCatalog(suite, Selected(f), mode);
      assert Other(mode) in (set m | m in suite.modes :: Other(m));
    }
  }
}
