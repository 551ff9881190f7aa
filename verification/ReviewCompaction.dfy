/**
 The review gate as a preorder, and its compact baselines
 (scripts/mcp_conformance/review_regressions.py). No check is ever skipped here, so compaction
 keeps the verdict for every baseline it accepts.
 */
module ReviewCompaction {
  import opened JsonValue
  import opened Listing
  import opened ReviewReport

  predicate Clean(suite: Suite, f: Fields) {
    Problems(suite, f) == []
  }

  function ChecksOf(suite: Suite, f: Fields): Checks {
    Scanned(suite, f).checks
  }

  // ---------------------------------------------------------------- the preorder

  /** Nothing fails that did not fail before, and no check has gone. */
  predicate NoWorse(now: Checks, before: Checks) {
    (forall id | id in now && !now[id] :: id in before && !before[id]) && before.Keys <= now.Keys
  }

  lemma SortedEmpty(suite: Suite, s: set<Identity>)
    requires Sorts(suite)
    ensures suite.sorted(s) == [] <==> s == {}
  {
    if suite.sorted(s) == [] {
      assert forall id :: id !in s;
    } else {
      assert suite.sorted(s)[0] in suite.sorted(s);
    }
  }

  /** What passing means: both reports are in order and the candidate is no worse. */
  lemma PassesIff(suite: Suite, candidate: Fields, baseline: Fields)
    requires Sorts(suite)
    ensures Gate(suite, candidate, baseline).success
      <==> Clean(suite, candidate) && Clean(suite, baseline)
           && NoWorse(ChecksOf(suite, candidate), ChecksOf(suite, baseline))
  {
    hide Problems, Scanned;
    var now, before := Scanned(suite, candidate).checks, Scanned(suite, baseline).checks;
    SortedEmpty(suite, NewFailures(now, before));
    SortedEmpty(suite, before.Keys - now.Keys);
    hide Sorts;
    if NewFailures(now, before) == {} {
      forall id | id in now && !now[id] ensures id in before && !before[id] {
        assert id !in NewFailures(now, before);
      }
    }
    if before.Keys - now.Keys == {} {
      forall id | id in before ensures id in now {
        assert id !in before.Keys - now.Keys;
      }
    }
  }

  lemma GateReflexive(suite: Suite, f: Fields)
    requires Sorts(suite) && Clean(suite, f)
    ensures Gate(suite, f, f).success
  {
    PassesIff(suite, f, f);
  }

  lemma GateTransitive(suite: Suite, b: Fields, c: Fields, d: Fields)
    requires Sorts(suite) && Gate(suite, c, b).success && Gate(suite, d, c).success
    ensures Gate(suite, d, b).success
  {
    hide Gate, Problems, Scanned;
    PassesIff(suite, c, b);
    PassesIff(suite, d, c);
    PassesIff(suite, d, b);
  }

  // ---------------------------------------------------------------- compaction

  function Record(id: Identity): Value {
    Obj(map[Mode := Str(id.mode), Transport := Str(id.transport), CheckId := Str(id.checkId)])
  }

  function Records(ids: seq<Identity>): seq<Value> {
    seq(|ids|, i requires 0 <= i < |ids| => Record(ids[i]))
  }

  function CaseRecord(c: Case): Value {
    Obj(map[Mode := Str(c.0), Transport := Str(c.1)])
  }

  function CaseRecords(cases: seq<Case>): seq<Value> {
    seq(|cases|, i requires 0 <= i < |cases| => CaseRecord(cases[i]))
  }

  function FailedChecks(checks: Checks): set<Identity> {
    set id | id in checks && !checks[id]
  }

  function TotalsOf(summary: Fields): Fields {
    map[Passed := Get(summary, Passed), Failed := Get(summary, Failed), Total := Get(summary, Total),
        CasesPassed := Get(summary, CasesPassed), CasesTotal := Get(summary, CasesTotal)]
  }

  function CompactForm(suite: Suite, summary: Fields, checks: Checks): Fields {
    map[
      BaselineKind := Str(COMPACT_KIND),
      SchemaVersion := Int(SCHEMA_VERSION),
      Reviewer := Str(suite.reviewer),
      RequiredModes := Texts(suite.modes),
      RequiredCases := Arr(CaseRecords(suite.sortedCases(suite.cases))),
      Summary := Obj(TotalsOf(summary)),
      ChecksKey := Obj(map[
        Passing := Arr(Records(suite.sorted(PassedChecks(checks)))),
        Failing := Arr(Records(suite.sorted(FailedChecks(checks))))])]
  }

  /** The compact baseline of a report with nothing wrong; anything else raises. */
  function Compact(suite: Suite, f: Fields): Outcome<Fields> {
    if Clean(suite, f) && Get(f, Summary).Obj?
    then Ok(CompactForm(suite, Get(f, Summary).fields, ChecksOf(suite, f)))
    else Raise
  }

  // ---------------------------------------------------------------- what a clean report contains

  predicate Wellformed(suite: Suite, checks: Checks) {
    forall id | id in checks :: ValidIdentity(suite, id)
  }

  lemma {:induction false} RecordsWellformed(suite: Suite, s: Scan, records: seq<Value>, success: bool)
    requires Wellformed(suite, s.checks)
    ensures Wellformed(suite, ReadRecords(suite, s, records, success).checks)
  {
    if records != [] {
      RecordsWellformed(suite, s, records[..|records| - 1], success);
    }
  }

  lemma {:induction false} RequiredCasesKeepChecks(s: Scan, list: seq<Value>)
    ensures ReadRequiredCases(s, list).checks == s.checks
  {
    if list != [] {
      RequiredCasesKeepChecks(s, list[..|list| - 1]);
    }
  }

  lemma {:induction false} ChecksWellformed(suite: Suite, s: Scan, c: Case, raw: seq<Value>)
    requires Wellformed(suite, s.checks) && c in suite.cases
    ensures Wellformed(suite, ReadChecks(s, c, raw).0.checks)
  {
    if raw != [] {
      ChecksWellformed(suite, s, c, raw[..|raw| - 1]);
    }
  }

  lemma {:induction false} CasesWellformed(suite: Suite, s: Scan, list: seq<Value>)
    requires Wellformed(suite, s.checks)
    ensures Wellformed(suite, ReadCases(suite, s, list).checks)
  {
    if list != [] {
      var t := ReadCases(suite, s, list[..|list| - 1]);
      var v := list[|list| - 1];
      CasesWellformed(suite, s, list[..|list| - 1]);
      if v.Obj? && Get(v.fields, Mode).Str? && Get(v.fields, Transport).Str? && Get(v.fields, ChecksKey).Arr? {
        var c := (Get(v.fields, Mode).s, Get(v.fields, Transport).s);
        if c in suite.cases {
          ChecksWellformed(suite, t.(observed := t.observed + {c}), c, Get(v.fields, ChecksKey).items);
        }
      }
      hide ReadChecks, Wellformed;
    }
  }

  lemma ScannedWellformed(suite: Suite, f: Fields)
    ensures Wellformed(suite, Scanned(suite, f).checks)
  {
    if IsCompact(f) {
      var problems := HeaderProblems(suite, f) + Note(Get(f, BaselineKind) != Str(COMPACT_KIND), UnsupportedBaseline);
      var s := Scan(problems, {}, map[]);
      var list, checks := Get(f, RequiredCases), Get(f, ChecksKey);
      if list.Arr? { RequiredCasesKeepChecks(s, list.items); }
      var t := if list.Arr? then ReadRequiredCases(s, list.items) else With(s, NoRequiredCases);
      var u := if checks.Obj? then t else With(t, NoIdentities);
      var buckets := if checks.Obj? then checks.fields else map[];
      assert u.checks == map[];
      hide HeaderProblems, ReadRequiredCases, ReadRecords;
      BucketWellformed(suite, u, Get(buckets, Passing), true);
      BucketWellformed(suite, ReadBucket(suite, u, Get(buckets, Passing), true), Get(buckets, Failing), false);
    } else {
      var s := Scan(HeaderProblems(suite, f), {}, map[]);
      var list := Get(f, Cases);
      CasesWellformed(suite, if list.Arr? then s else With(s, NoCases), if list.Arr? then list.items else []);
    }
  }

  lemma BucketWellformed(suite: Suite, s: Scan, v: Value, success: bool)
    requires Wellformed(suite, s.checks)
    ensures Wellformed(suite, ReadBucket(suite, s, v, success).checks)
  {
    if v.Arr? { RecordsWellformed(suite, s, v.items, success); }
    hide ReadRecords;
  }

  /** A clean report observed exactly the required cases and agrees with its totals. */
  lemma CleanFacts(suite: Suite, f: Fields)
    requires Sorts(suite) && Clean(suite, f)
    ensures
      var s := Scanned(suite, f);
      Wellformed(suite, s.checks) && s.problems == [] && s.observed == suite.cases
      && AgreesWithTotals(Get(f, Summary), s.observed, s.checks)
  {
    ScannedWellformed(suite, f);
    hide Scanned, AgreesWithTotals, PassedChecks, Wellformed;
    var s := Scanned(suite, f);
    assert FinalProblems(suite, f, s) == [];
    NoCaseProblems(suite, suite.cases - s.observed, true);
    NoCaseProblems(suite, s.observed - suite.cases, false);
  }

  lemma NoCaseProblems(suite: Suite, cases: set<Case>, missing: bool)
    requires Sorts(suite)
    ensures CaseProblems(suite.sortedCases(cases), missing) == [] <==> cases == {}
  {
    var l := suite.sortedCases(cases);
    assert |CaseProblems(l, missing)| == |l|;
    if l == [] {
      assert forall c :: c !in cases;
    } else {
      assert l[0] in l;
    }
  }

  // ---------------------------------------------------------------- reading a compact form

  function Given(checks: Checks, ids: set<Identity>, success: bool): Checks {
    map id | id in checks.Keys + ids :: if id in ids then success else checks[id]
  }

  lemma RecordReads(suite: Suite, id: Identity)
    requires ValidIdentity(suite, id)
    ensures ReadRecord(suite, Record(id)) == Some(id)
  {
  }

  lemma GivenOne(checks: Checks, ids: set<Identity>, id: Identity, success: bool)
    requires id !in checks && id !in ids
    ensures id !in Given(checks, ids, success)
    ensures Given(checks, ids + {id}, success) == Given(checks, ids, success)[id := success]
  {
  }

  lemma RecordsAppend(ids: seq<Identity>)
    requires ids != []
    ensures var n := |ids| - 1; Records(ids) == Records(ids[..n]) + [Record(ids[n])]
  {
    hide Record;
  }

  lemma ReadAppend(suite: Suite, s: Scan, records: seq<Value>, v: Value, id: Identity, success: bool)
    requires ReadRecord(suite, v) == Some(id)
    ensures ReadRecords(suite, s, records + [v], success)
         == AddCheck(ReadRecords(suite, s, records, success), id, success)
  {
    hide ReadRecord, AddCheck;
    assert (records + [v])[..|records|] == records;
  }

  lemma {:induction false} RecordsRead(suite: Suite, s: Scan, ids: seq<Identity>, success: bool)
    requires forall i | 0 <= i < |ids| :: ValidIdentity(suite, ids[i]) && ids[i] !in s.checks
    requires Distinct(ids)
    ensures ReadRecords(suite, s, Records(ids), success) == s.(checks := Given(s.checks, (set id | id in ids), success))
  {
    if ids == [] {
      assert Given(s.checks, {}, success) == s.checks;
    } else {
      var n := |ids| - 1;
      RecordsRead(suite, s, ids[..n], success);
      RecordReads(suite, ids[n]);
      RecordsAppend(ids);
      hide ReadRecord, ReadRecords, Record, Records, ValidIdentity, Given;
      DistinctAppend(ids);
      GivenOne(s.checks, (set id | id in ids[..n]), ids[n], success);
      ReadAppend(suite, s, Records(ids[..n]), Record(ids[n]), ids[n], success);
    }
  }

  lemma SortedRead(suite: Suite, s: Scan, ids: set<Identity>, success: bool)
    requires Sorts(suite) && ids !! s.checks.Keys && forall id | id in ids :: ValidIdentity(suite, id)
    ensures ReadRecords(suite, s, Records(suite.sorted(ids)), success) == s.(checks := Given(s.checks, ids, success))
  {
    var l := suite.sorted(ids);
    assert forall i | 0 <= i < |l| :: l[i] in l;
    RecordsRead(suite, s, l, success);
    assert (set id | id in l) == ids;
  }

  lemma CaseRecordsAppend(cases: seq<Case>)
    requires cases != []
    ensures var n := |cases| - 1; CaseRecords(cases) == CaseRecords(cases[..n]) + [CaseRecord(cases[n])]
  {
    hide CaseRecord;
  }

  lemma CaseAppend(s: Scan, list: seq<Value>, c: Case)
    requires c !in ReadRequiredCases(s, list).observed
    ensures
      var t := ReadRequiredCases(s, list);
      ReadRequiredCases(s, list + [CaseRecord(c)]) == t.(observed := t.observed + {c})
  {
    assert (list + [CaseRecord(c)])[..|list|] == list;
  }

  lemma {:induction false} CasesRead(s: Scan, cases: seq<Case>)
    requires forall i | 0 <= i < |cases| :: cases[i] !in s.observed
    requires Distinct(cases)
    ensures ReadRequiredCases(s, CaseRecords(cases)) == s.(observed := s.observed + set c | c in cases)
  {
    if cases != [] {
      var n := |cases| - 1;
      CasesRead(s, cases[..n]);
      CaseRecordsAppend(cases);
      hide CaseRecords, CaseRecord, ReadRequiredCases;
      assert cases == cases[..n] + [cases[n]];
      assert (set c | c in cases) == (set c | c in cases[..n]) + {cases[n]};
      CaseAppend(s, CaseRecords(cases[..n]), cases[n]);
    } else {
      assert s.observed + (set c | c in cases) == s.observed;
    }
  }

  lemma SortedCasesRead(suite: Suite, s: Scan)
    requires Sorts(suite) && s.observed == {}
    ensures ReadRequiredCases(s, CaseRecords(suite.sortedCases(suite.cases))) == s.(observed := suite.cases)
  {
    var l := suite.sortedCases(suite.cases);
    CasesRead(s, l);
    assert (set c | c in l) == suite.cases;
  }

  lemma CompactHeader(suite: Suite, summary: Fields, checks: Checks)
    ensures
      var c := CompactForm(suite, summary, checks);
      HeaderProblems(suite, c) == [] && Get(c, BaselineKind) == Str(COMPACT_KIND) && IsCompact(c)
      && Get(c, RequiredCases) == Arr(CaseRecords(suite.sortedCases(suite.cases)))
      && Get(c, Summary) == Obj(TotalsOf(summary))
      && Get(c, ChecksKey) == Obj(map[
           Passing := Arr(Records(suite.sorted(PassedChecks(checks)))),
           Failing := Arr(Records(suite.sorted(FailedChecks(checks))))])
  {
    hide CaseRecords, Records, Texts, PassedChecks, FailedChecks, TotalsOf;
  }

  /** The two buckets together are the checks. */
  lemma BucketsAreChecks(checks: Checks)
    ensures Given(Given(map[], PassedChecks(checks), true), FailedChecks(checks), false) == checks
    ensures Given(map[], PassedChecks(checks), true).Keys == PassedChecks(checks)
  {
  }

  lemma BucketsRead(suite: Suite, checks: Checks)
    requires Sorts(suite) && Wellformed(suite, checks)
    ensures
      var s := Scan([], suite.cases, map[]);
      var passing := Arr(Records(suite.sorted(PassedChecks(checks))));
      var failing := Arr(Records(suite.sorted(FailedChecks(checks))));
      ReadBucket(suite, ReadBucket(suite, s, passing, true), failing, false) == Scan([], suite.cases, checks)
  {
    var s := Scan([], suite.cases, map[]);
    var passed, failed := PassedChecks(checks), FailedChecks(checks);
    BucketsAreChecks(checks);
    SortedRead(suite, s, passed, true);
    SortedRead(suite, s.(checks := Given(map[], passed, true)), failed, false);
    hide Given, ReadRecords, Records, Sorts;
  }

  /** A compact form reads back as the checks it was made from. */
  lemma CompactScanned(suite: Suite, summary: Fields, checks: Checks)
    requires Sorts(suite) && Wellformed(suite, checks)
    ensures Scanned(suite, CompactForm(suite, summary, checks)) == Scan([], suite.cases, checks)
  {
    hide CompactForm, HeaderProblems, ReadBucket, ReadRequiredCases, Records, CaseRecords;
    hide PassedChecks, FailedChecks, Sorts;
    var c := CompactForm(suite, summary, checks);
    CompactHeader(suite, summary, checks);
    SortedCasesRead(suite, Scan([], {}, map[]));
    BucketsRead(suite, checks);
    assert HeaderProblems(suite, c) + Note(Get(c, BaselineKind) != Str(COMPACT_KIND), UnsupportedBaseline) == [];
    var buckets := Get(c, ChecksKey).fields;
    assert Get(buckets, Passing) == Arr(Records(suite.sorted(PassedChecks(checks))));
    assert Get(buckets, Failing) == Arr(Records(suite.sorted(FailedChecks(checks))));
  }

  lemma TotalsKept(summary: Fields, observed: set<Case>, checks: Checks)
    ensures AgreesWithTotals(Obj(TotalsOf(summary)), observed, checks)
         == AgreesWithTotals(Obj(summary), observed, checks)
  {
    hide EqualsInt, PassedChecks, PassedCases;
  }

  /** The compact form of a clean report is clean and has the same checks. */
  lemma CompactClean(suite: Suite, f: Fields)
    requires Sorts(suite) && Clean(suite, f)
    ensures Compact(suite, f).Ok?
    ensures Clean(suite, Compact(suite, f).value) && ChecksOf(suite, Compact(suite, f).value) == ChecksOf(suite, f)
  {
    hide Scanned, CompactForm, Wellformed, CaseProblems;
    CleanFacts(suite, f);
    var s := Scanned(suite, f);
    var summary := Get(f, Summary).fields;
    var c := CompactForm(suite, summary, s.checks);
    CompactScanned(suite, summary, s.checks);
    CompactHeader(suite, summary, s.checks);
    TotalsKept(summary, s.observed, s.checks);
    NoCaseProblems(suite, suite.cases - suite.cases, true);
    hide AgreesWithTotals, Sorts;
    NoCaseProblemsAtAll(suite);
    assert FinalProblems(suite, c, Scan([], suite.cases, s.checks)) == [];
  }

  lemma NoCaseProblemsAtAll(suite: Suite)
    requires Sorts(suite)
    ensures CaseProblems(suite.sortedCases(suite.cases - suite.cases), true) == []
    ensures CaseProblems(suite.sortedCases(suite.cases - suite.cases), false) == []
  {
    NoCaseProblems(suite, suite.cases - suite.cases, true);
    NoCaseProblems(suite, suite.cases - suite.cases, false);
  }

  /** For every baseline that compacts and every candidate the verdict is the same, lists and errors included. */
  lemma CompactionPreserves(suite: Suite, baseline: Fields, candidate: Fields)
    requires Sorts(suite) && Compact(suite, baseline).Ok?
    ensures Gate(suite, candidate, Compact(suite, baseline).value) == Gate(suite, candidate, baseline)
  {
    hide Scanned, Problems, CompactForm, Judge;
    assert Clean(suite, baseline);
    CompactClean(suite, baseline);
  }

  /** Compacting again changes nothing. */
  lemma CompactAgain(suite: Suite, f: Fields)
    requires Sorts(suite) && Compact(suite, f).Ok?
    ensures Compact(suite, Compact(suite, f).value) == Compact(suite, f)
  {
    hide Scanned, Problems, CompactForm;
    CompactClean(suite, f);
    var summary, checks := Get(f, Summary).fields, ChecksOf(suite, f);
    CompactHeader(suite, summary, checks);
    SameTotals(suite, summary, checks);
  }

  lemma SameTotals(suite: Suite, summary: Fields, checks: Checks)
    ensures CompactForm(suite, TotalsOf(summary), checks) == CompactForm(suite, summary, checks)
  {
    assert TotalsOf(TotalsOf(summary)) == TotalsOf(summary);
  }

  /** A report compacts exactly when nothing is wrong with it. */
  lemma CompactsIff(suite: Suite, f: Fields)
    requires Sorts(suite)
    ensures Compact(suite, f).Ok? <==> Clean(suite, f)
  {
    if Clean(suite, f) { CompactClean(suite, f); }
  }
}
