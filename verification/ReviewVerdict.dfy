/**
 The review gate from report texts to verdict (scripts/mcp_conformance/review_regressions.py),
 without mentioning how reports are read: which reports are usable, what they state, when a
 candidate passes and what is listed.
 */
module ReviewVerdict {
  import opened JsonValue
  import opened ReviewReport
  import opened ReviewCompaction
  import opened ReviewClean

  // ---------------------------------------------------------------- the cases of a compact baseline

  predicate NamesCase(v: Value) {
    v.Obj? && Get(v.fields, Mode).Str? && Get(v.fields, Transport).Str?
  }

  predicate Names(v: Value, c: Case) {
    v.Obj? && Get(v.fields, Mode) == Str(c.0) && Get(v.fields, Transport) == Str(c.1)
  }

  predicate NamedIn(list: seq<Value>, c: Case) {
    exists i :: 0 <= i < |list| && Names(list[i], c)
  }

  /** Every entry names a case and no two name the same. */
  predicate GoodRequired(list: seq<Value>) {
    (forall i | 0 <= i < |list| :: NamesCase(list[i]))
    && forall i, j | 0 <= i < j < |list| :: CaseIn(list[i]) != CaseIn(list[j])
  }

  lemma {:induction false} RequiredIff(s: Scan, list: seq<Value>)
    requires s.observed == {}
    ensures
      var r := ReadRequiredCases(s, list);
      s.problems <= r.problems && r.checks == s.checks
      && (r.problems == s.problems <==> GoodRequired(list))
      && (GoodRequired(list) ==> forall c :: c in r.observed <==> NamedIn(list, c))
  {
    if list != [] {
      var n := |list| - 1;
      var v, t := list[n], ReadRequiredCases(s, list[..n]);
      RequiredIff(s, list[..n]);
      hide ReadRequiredCases;
      assert ReadRequiredCases(s, list)
        == if !NamesCase(v) then With(t, MalformedCase)
           else if CaseIn(v) in t.observed then With(t, DuplicateCase)
           else t.(observed := t.observed + {CaseIn(v)})
        by { RequiredStep(s, list); }
      RequiredAppend(list);
      forall c ensures NamedIn(list, c) <==> NamedIn(list[..n], c) || Names(v, c) {
        NamedAppend(list, c);
      }
      hide NamedIn, GoodRequired;
      if NamesCase(v) {
        assert forall c :: Names(v, c) <==> c == CaseIn(v);
      }
    }
  }

  lemma RequiredStep(s: Scan, list: seq<Value>)
    requires list != []
    ensures
      var n := |list| - 1;
      var v, t := list[n], ReadRequiredCases(s, list[..n]);
      ReadRequiredCases(s, list)
      == if !NamesCase(v) then With(t, MalformedCase)
         else if CaseIn(v) in t.observed then With(t, DuplicateCase)
         else t.(observed := t.observed + {CaseIn(v)})
  {
  }

  lemma NamedAppend(list: seq<Value>, c: Case)
    requires list != []
    ensures NamedIn(list, c) <==> NamedIn(list[..|list| - 1], c) || Names(list[|list| - 1], c)
  {
    hide Names;
    var front := list[..|list| - 1];
    if NamedIn(front, c) {
      var i :| 0 <= i < |front| && Names(front[i], c);
      assert Names(list[i], c);
    }
    if NamedIn(list, c) && !Names(list[|list| - 1], c) {
      var i :| 0 <= i < |list| && Names(list[i], c);
      assert Names(front[i], c);
    }
  }

  lemma RequiredAppend(list: seq<Value>)
    requires list != []
    ensures
      var front, last := list[..|list| - 1], list[|list| - 1];
      GoodRequired(list)
      <==> GoodRequired(front) && NamesCase(last) && !NamedIn(front, CaseIn(last))
  {
    var front, last := list[..|list| - 1], list[|list| - 1];
    assert forall i | 0 <= i < |front| :: front[i] == list[i];
    assert list[|front|] == last;
    if GoodRequired(front) && NamesCase(last) && !NamedIn(front, CaseIn(last)) {
      forall i, j | 0 <= i < j < |list| ensures CaseIn(list[i]) != CaseIn(list[j]) {
        if j == |front| {
          assert !Names(front[i], CaseIn(last));
        }
      }
    }
  }

  // ---------------------------------------------------------------- the records of a compact baseline

  /** The record spells out this identity. */
  predicate Spells(v: Value, id: Identity) {
    v.Obj? && Get(v.fields, Mode) == Str(id.mode) && Get(v.fields, Transport) == Str(id.transport)
    && Get(v.fields, CheckId) == Str(id.checkId)
  }

  predicate GoodRecord(suite: Suite, v: Value) {
    v.Obj? && Get(v.fields, Mode).Str? && Get(v.fields, Transport).Str? && Get(v.fields, CheckId).Str?
    && "review/" <= Get(v.fields, CheckId).s && (Get(v.fields, Mode).s, Get(v.fields, Transport).s) in suite.cases
  }

  lemma RecordIff(suite: Suite, v: Value, id: Identity)
    ensures ReadRecord(suite, v) == Some(id) <==> GoodRecord(suite, v) && Spells(v, id)
    ensures ReadRecord(suite, v).None? <==> !GoodRecord(suite, v)
  {
  }

  predicate SpelledIn(records: seq<Value>, id: Identity) {
    exists i :: 0 <= i < |records| && Spells(records[i], id)
  }

  /** Every record is good, no two spell the same identity, and none spells one that is taken. */
  ghost predicate GoodRecords(suite: Suite, taken: iset<Identity>, records: seq<Value>) {
    (forall i | 0 <= i < |records| :: GoodRecord(suite, records[i]))
    && (forall i, j, id | 0 <= i < j < |records| && Spells(records[i], id) :: !Spells(records[j], id))
    && forall id | SpelledIn(records, id) :: id !in taken
  }

  lemma SpelledAppend(records: seq<Value>, id: Identity)
    requires records != []
    ensures SpelledIn(records, id) <==> SpelledIn(records[..|records| - 1], id) || Spells(records[|records| - 1], id)
  {
    hide Spells;
    var front := records[..|records| - 1];
    if SpelledIn(front, id) {
      var i :| 0 <= i < |front| && Spells(front[i], id);
      assert Spells(records[i], id);
    }
    if SpelledIn(records, id) && !Spells(records[|records| - 1], id) {
      var i :| 0 <= i < |records| && Spells(records[i], id);
      assert Spells(front[i], id);
    }
  }

  lemma GoodRecordsAppend(suite: Suite, taken: iset<Identity>, records: seq<Value>)
    requires records != []
    ensures
      var front, last := records[..|records| - 1], records[|records| - 1];
      GoodRecords(suite, taken, records)
      <==> GoodRecords(suite, taken, front) && GoodRecord(suite, last)
           && forall id | Spells(last, id) :: !SpelledIn(front, id) && id !in taken
  {
    var front, last := records[..|records| - 1], records[|records| - 1];
    forall id ensures SpelledIn(records, id) <==> SpelledIn(front, id) || Spells(last, id) {
      SpelledAppend(records, id);
    }
    hide Spells, GoodRecord;
    assert forall i | 0 <= i < |front| :: front[i] == records[i];
    if GoodRecords(suite, taken, records) {
      forall id | Spells(last, id) ensures !SpelledIn(front, id) {
        assert records[|front|] == last;
      }
      forall i, j, id | 0 <= i < j < |front| && Spells(front[i], id) ensures !Spells(front[j], id) {
        assert Spells(records[i], id);
      }
    }
    if GoodRecords(suite, taken, front) && GoodRecord(suite, last)
       && forall id | Spells(last, id) :: !SpelledIn(front, id) && id !in taken {
      forall i, j, id | 0 <= i < j < |records| && Spells(records[i], id) ensures !Spells(records[j], id) {
        assert Spells(front[i], id) && SpelledIn(front, id);
      }
    }
  }

  /** What reading a bucket adds to what has been read, if nothing is wrong with it. */
  ghost predicate Adds(s: Scan, r: Scan, records: seq<Value>, success: bool) {
    r.observed == s.observed
    && (forall id :: id in r.checks <==> id in s.checks || SpelledIn(records, id))
    && (forall id | id in s.checks :: id in r.checks && r.checks[id] == s.checks[id])
    && forall id | SpelledIn(records, id) :: id in r.checks && r.checks[id] == success
  }

  lemma AddsNext(s: Scan, t: Scan, records: seq<Value>, id: Identity, success: bool)
    requires records != [] && Adds(s, t, records[..|records| - 1], success) && id !in t.checks
    requires Spells(records[|records| - 1], id)
    ensures Adds(s, t.(checks := t.checks[id := success]), records, success)
  {
    forall x ensures SpelledIn(records, x) <==> SpelledIn(records[..|records| - 1], x) || x == id {
      SpelledAppend(records, x);
    }
    hide SpelledIn, Spells;
  }

  /** One more record leaves no problem exactly if it is good and new. */
  lemma RecordNext(suite: Suite, s: Scan, records: seq<Value>, success: bool)
    requires records != []
    ensures
      var t, r := ReadRecords(suite, s, records[..|records| - 1], success), ReadRecords(suite, s, records, success);
      var last := records[|records| - 1];
      t.problems <= r.problems
      && (r.problems == t.problems
          <==> GoodRecord(suite, last) && forall id | Spells(last, id) :: id !in t.checks)
      && (r.problems == t.problems ==>
            exists id :: Spells(last, id) && id !in t.checks && r == t.(checks := t.checks[id := success]))
  {
    var last := records[|records| - 1];
    forall id
      ensures (ReadRecord(suite, last) == Some(id) <==> GoodRecord(suite, last) && Spells(last, id))
        && (ReadRecord(suite, last).None? <==> !GoodRecord(suite, last))
    {
      RecordIff(suite, last, id);
    }
    hide ReadRecord, GoodRecord, Spells;
  }

  lemma {:induction false} RecordsIff(suite: Suite, s: Scan, records: seq<Value>, success: bool)
    ensures
      var r := ReadRecords(suite, s, records, success);
      s.problems <= r.problems
      && (r.problems == s.problems <==> GoodRecords(suite, (iset id | id in s.checks), records))
      && (r.problems == s.problems ==> Adds(s, r, records, success))
  {
    if records != [] {
      var front, last := records[..|records| - 1], records[|records| - 1];
      var t, r := ReadRecords(suite, s, front, success), ReadRecords(suite, s, records, success);
      RecordsIff(suite, s, front, success);
      GoodRecordsAppend(suite, (iset id | id in s.checks), records);
      RecordNext(suite, s, records, success);
      hide ReadRecords, GoodRecord, Spells, SpelledIn, GoodRecords;
      if t.problems == s.problems {
        assert forall id :: id in t.checks <==> id in s.checks || SpelledIn(front, id);
        if r.problems == t.problems {
          var id :| Spells(last, id) && id !in t.checks && r == t.(checks := t.checks[id := success]);
          AddsNext(s, t, records, id, success);
        }
      }
      hide Adds;
    }
  }

  // ---------------------------------------------------------------- what a report states

  function BucketOf(f: Fields, result: bool): Value {
    var checks := Get(f, ChecksKey);
    if checks.Obj? then Get(checks.fields, if result then Passing else Failing) else Null
  }

  predicate CompactStates(f: Fields, id: Identity, result: bool) {
    BucketOf(f, result).Arr? && SpelledIn(BucketOf(f, result).items, id)
  }

  /** The check has this name and this result. */
  predicate Says(v: Value, name: string, result: bool) {
    v.Obj? && Get(v.fields, Name) == Str(name) && Get(v.fields, Success) == Bool(result)
  }

  predicate SaidIn(v: Value, id: Identity, result: bool) {
    Names(v, (id.mode, id.transport)) && Get(v.fields, ChecksKey).Arr? &&
    var items := Get(v.fields, ChecksKey).items;
    exists j :: 0 <= j < |items| && Says(items[j], id.checkId, result)
  }

  predicate FullStates(f: Fields, id: Identity, result: bool) {
    Get(f, Cases).Arr? && exists i :: 0 <= i < |Get(f, Cases).items| && SaidIn(Get(f, Cases).items[i], id, result)
  }

  /** A report states the result of a check. */
  predicate States(f: Fields, id: Identity, result: bool) {
    if Get(f, BaselineKind) == Null then FullStates(f, id, result) else CompactStates(f, id, result)
  }

  /** These are the results a report states. */
  ghost predicate StatesAll(f: Fields, checks: Checks) {
    forall id, result :: (id in checks && checks[id] == result) <==> States(f, id, result)
  }

  /** A compact baseline that is in order: the required cases, distinct checks, and totals that agree with them. */
  ghost predicate CompactInOrder(suite: Suite, f: Fields) {
    GoodHeader(suite, f) && Get(f, BaselineKind) == Str("mcp-review-regression-baseline-v1")
    && Get(f, RequiredCases).Arr? && GoodRequired(Get(f, RequiredCases).items)
    && (forall c :: NamedIn(Get(f, RequiredCases).items, c) <==> c in suite.cases)
    && BucketOf(f, true).Arr? && GoodRecords(suite, iset{}, BucketOf(f, true).items)
    && BucketOf(f, false).Arr?
    && GoodRecords(suite, (iset id | SpelledIn(BucketOf(f, true).items, id)), BucketOf(f, false).items)
    && exists checks :: StatesAll(f, checks) && TotalsAgree(Get(f, Summary), suite.cases, checks)
  }

  // ---------------------------------------------------------------- full reports state their results

  lemma CaseResultIff(v: Value, id: Identity, result: bool)
    requires NamesCase(v) && GoodChecks(ChecksIn(v)) && CaseIn(v) == CaseOf(id)
    ensures
      var results := ResultsOf(CaseOf(id), ChecksIn(v));
      id in results && results[id] == result <==> SaidIn(v, id, result)
  {
    var raw := ChecksIn(v);
    ResultsListed(CaseOf(id), raw, id);
    var results := ResultsOf(CaseOf(id), raw);
    hide ResultsOf;
    if id in results && results[id] == result {
      var i :| 0 <= i < |raw| && NameOf(raw[i]) == id.checkId;
      assert Says(raw[i], id.checkId, result);
      assert Get(v.fields, ChecksKey).items[i] == raw[i];
    }
    if SaidIn(v, id, result) {
      var j :| 0 <= j < |raw| && Says(raw[j], id.checkId, result);
      assert NameOf(raw[j]) == id.checkId && ResultOf(raw[j]) == result;
    }
  }

  lemma SaidNames(suite: Suite, list: seq<Value>, k: nat, id: Identity, result: bool)
    requires GoodCases(suite, list) && k < |list| && SaidIn(list[k], id, result)
    ensures CaseIn(list[k]) == CaseOf(id)
  {
    hide GoodChecks, AllPass;
    assert GoodCase(suite, list[k]);
  }

  /** With the case of a check listed, the check's result is what that case says. */
  lemma ResultAt(suite: Suite, list: seq<Value>, i: nat, id: Identity, result: bool)
    requires GoodCases(suite, list) && i < |list| && CaseIn(list[i]) == CaseOf(id)
    ensures
      var results := AllResults(suite, list);
      id in results && results[id] == result <==> SaidIn(list[i], id, result)
    ensures forall k: nat | k < |list| && SaidIn(list[k], id, result) :: k == i
  {
    AllResultsListed(suite, list, i, id);
    assert GoodCase(suite, list[i]);
    CaseResultIff(list[i], id, result);
    forall k: nat | k < |list| && SaidIn(list[k], id, result) ensures k == i {
      SaidNames(suite, list, k, id, result);
      OneCase(suite, list, i, k);
    }
    hide ResultsOf, AllResults, SaidIn, GoodChecks, AllPass, ChecksIn;
  }

  lemma OneCase(suite: Suite, list: seq<Value>, i: nat, k: nat)
    requires GoodCases(suite, list) && i < |list| && k < |list| && CaseIn(list[i]) == CaseIn(list[k])
    ensures i == k
  {
    hide GoodCase;
  }

  lemma NoResult(suite: Suite, list: seq<Value>, id: Identity, result: bool)
    requires GoodCases(suite, list) && CaseOf(id) !in CasesListed(suite, list)
    ensures id !in AllResults(suite, list) && forall k: nat | k < |list| :: !SaidIn(list[k], id, result)
  {
    hide GoodCase, SaidIn, AllResults;
    if id in AllResults(suite, list) {
      ResultsOfListed(suite, list, id);
    }
    forall k: nat | k < |list| ensures !SaidIn(list[k], id, result) {
      if SaidIn(list[k], id, result) {
        SaidNames(suite, list, k, id, result);
      }
    }
  }

  lemma FullStatesIff(suite: Suite, f: Fields, id: Identity, result: bool)
    requires Get(f, Cases).Arr? && GoodCases(suite, Get(f, Cases).items)
    ensures
      var results := AllResults(suite, Get(f, Cases).items);
      id in results && results[id] == result <==> FullStates(f, id, result)
  {
    hide GoodChecks, AllPass, AllResults, SaidIn;
    var list := Get(f, Cases).items;
    if CaseOf(id) in CasesListed(suite, list) {
      var i: nat :| i < |list| && CaseIn(list[i]) == CaseOf(id);
      ResultAt(suite, list, i, id, result);
      hide GoodCases, CasesListed;
    } else {
      NoResult(suite, list, id, result);
      hide GoodCases, CasesListed;
    }
  }

  // ---------------------------------------------------------------- compact baselines are read as they state

  /** The steps of reading a compact baseline. */
  lemma CompactSteps(suite: Suite, f: Fields)
    requires IsCompact(f)
    ensures
      var s := Scan(HeaderProblems(suite, f)
                    + Note(Get(f, BaselineKind) != Str(COMPACT_KIND), UnsupportedBaseline), {}, map[]);
      var list := Get(f, RequiredCases);
      var t := if list.Arr? then ReadRequiredCases(s, list.items) else With(s, NoRequiredCases);
      var u := if Get(f, ChecksKey).Obj? then t else With(t, NoIdentities);
      var passed := ReadBucket(suite, u, BucketOf(f, true), true);
      Scanned(suite, f) == ReadBucket(suite, passed, BucketOf(f, false), false)
  {
    hide HeaderProblems, ReadRequiredCases, ReadBucket;
  }

  lemma BucketIff(suite: Suite, s: Scan, v: Value, success: bool)
    ensures
      var r := ReadBucket(suite, s, v, success);
      s.problems <= r.problems
      && (r.problems == s.problems <==> v.Arr? && GoodRecords(suite, (iset id | id in s.checks), v.items))
      && (r.problems == s.problems ==> Adds(s, r, v.items, success))
  {
    if v.Arr? {
      RecordsIff(suite, s, v.items, success);
    }
    hide ReadRecords, GoodRecords, Adds;
  }

  /** What must hold for a compact baseline to be read without a problem. */
  ghost predicate GoodParts(suite: Suite, f: Fields) {
    GoodHeader(suite, f) && Get(f, BaselineKind) == Str("mcp-review-regression-baseline-v1")
    && Get(f, RequiredCases).Arr? && GoodRequired(Get(f, RequiredCases).items)
    && BucketOf(f, true).Arr? && GoodRecords(suite, iset{}, BucketOf(f, true).items)
    && BucketOf(f, false).Arr?
    && GoodRecords(suite, (iset id | SpelledIn(BucketOf(f, true).items, id)), BucketOf(f, false).items)
  }

  lemma SameTaken(suite: Suite, a: iset<Identity>, b: iset<Identity>, records: seq<Value>)
    requires forall id :: id in a <==> id in b
    ensures GoodRecords(suite, a, records) <==> GoodRecords(suite, b, records)
  {
    assert a == b;
  }

  lemma CompactScanIff(suite: Suite, f: Fields)
    requires IsCompact(f)
    ensures Scanned(suite, f).problems == [] <==> GoodParts(suite, f)
    ensures GoodParts(suite, f) ==>
      StatesAll(f, Scanned(suite, f).checks)
      && forall c :: c in Scanned(suite, f).observed <==> NamedIn(Get(f, RequiredCases).items, c)
  {
    HeaderIff(suite, f);
    CompactSteps(suite, f);
    var s := Scan(HeaderProblems(suite, f)
                  + Note(Get(f, BaselineKind) != Str(COMPACT_KIND), UnsupportedBaseline), {}, map[]);
    var list := Get(f, RequiredCases);
    if list.Arr? { RequiredIff(s, list.items); }
    var t := if list.Arr? then ReadRequiredCases(s, list.items) else With(s, NoRequiredCases);
    var u := if Get(f, ChecksKey).Obj? then t else With(t, NoIdentities);
    BucketIff(suite, u, BucketOf(f, true), true);
    var passed := ReadBucket(suite, u, BucketOf(f, true), true);
    BucketIff(suite, passed, BucketOf(f, false), false);
    var r := ReadBucket(suite, passed, BucketOf(f, false), false);
    hide ReadBucket, ReadRequiredCases, HeaderProblems, GoodHeader, GoodRequired, NamedIn, SpelledIn;
    assert u.checks == map[];
    SameTaken(
      suite, (iset id | id in u.checks), iset{}, if BucketOf(f, true).Arr? then BucketOf(f, true).items else []);
    if passed.problems == u.problems && BucketOf(f, true).Arr? {
      SameTaken(suite, (iset id | id in passed.checks), (iset id | SpelledIn(BucketOf(f, true).items, id)),
                if BucketOf(f, false).Arr? then BucketOf(f, false).items else []);
    }
    hide GoodRecords;
    assert s.problems <= t.problems <= u.problems <= passed.problems <= r.problems;
    assert r.problems == []
      <==> s.problems == [] && t.problems == s.problems && u.problems == t.problems
           && passed.problems == u.problems && r.problems == passed.problems;
    if GoodParts(suite, f) {
      AddsStates(f, u, passed, r);
    }
  }

  lemma AddsStates(f: Fields, u: Scan, passed: Scan, r: Scan)
    requires IsCompact(f) && u.checks == map[] && BucketOf(f, true).Arr? && BucketOf(f, false).Arr?
    requires Adds(u, passed, BucketOf(f, true).items, true) && Adds(passed, r, BucketOf(f, false).items, false)
    requires forall id | SpelledIn(BucketOf(f, false).items, id) :: !SpelledIn(BucketOf(f, true).items, id)
    ensures StatesAll(f, r.checks) && r.observed == u.observed
  {
    hide SpelledIn, BucketOf;
  }

  // ---------------------------------------------------------------- usable reports

  /** A report the gate can use, full or compact. */
  ghost predicate Usable(suite: Suite, f: Fields) {
    if Get(f, BaselineKind) == Null then InOrder(suite, f) else CompactInOrder(suite, f)
  }

  lemma CompactFinalIff(suite: Suite, f: Fields, s: Scan)
    requires Sorts(suite) && IsCompact(f)
    ensures FinalProblems(suite, f, s) == []
       <==> s.observed == suite.cases && TotalsAgree(Get(f, Summary), suite.cases, s.checks)
  {
    NoCaseProblems(suite, suite.cases - s.observed, true);
    NoCaseProblems(suite, s.observed - suite.cases, false);
    TotalsIff(Get(f, Summary), s.observed, s.checks);
    hide Sorts, CaseProblems, AgreesWithTotals, TotalsAgree, PassedChecks;
    assert s.observed == suite.cases <==> suite.cases - s.observed == {} && s.observed - suite.cases == {};
  }

  lemma StatesOne(f: Fields, a: Checks, b: Checks)
    requires StatesAll(f, a) && StatesAll(f, b)
    ensures a == b
  {
    hide States;
    forall id | id in a ensures id in b && b[id] == a[id] {
      assert States(f, id, a[id]);
    }
    forall id | id in b ensures id in a {
      assert States(f, id, b[id]);
    }
  }

  lemma CompactUsableIff(suite: Suite, f: Fields)
    requires Sorts(suite) && IsCompact(f)
    ensures Clean(suite, f) <==> CompactInOrder(suite, f)
    ensures Clean(suite, f) ==> StatesAll(f, ChecksOf(suite, f))
  {
    var s := Scanned(suite, f);
    CompactScanIff(suite, f);
    CompactFinalIff(suite, f, s);
    hide Sorts, Scanned, FinalProblems, GoodHeader, GoodRequired, NamedIn, GoodRecords, TotalsAgree, States, BucketOf;
    if GoodParts(suite, f) {
      assert s.observed == suite.cases <==> forall c :: c in s.observed <==> c in suite.cases;
      hide GoodParts;
      if checks :| StatesAll(f, checks) && TotalsAgree(Get(f, Summary), suite.cases, checks) {
        StatesOne(f, checks, s.checks);
      }
    }
  }

  /** A report has no problem exactly if it is usable, and its checks are then what it states. */
  lemma UsableIff(suite: Suite, f: Fields)
    requires Sorts(suite)
    ensures Clean(suite, f) <==> Usable(suite, f)
    ensures Clean(suite, f) ==> StatesAll(f, ChecksOf(suite, f))
  {
    if Get(f, BaselineKind) == Null {
      FullCleanIff(suite, f);
      hide Sorts;
      if Clean(suite, f) {
        forall id, result
          ensures (id in ChecksOf(suite, f) && ChecksOf(suite, f)[id] == result) <==> States(f, id, result)
        {
          FullStatesIff(suite, f, id, result);
        }
      }
    } else {
      CompactUsableIff(suite, f);
    }
  }

  // ---------------------------------------------------------------- the verdict

  /** What fails in the candidate fails in the baseline, and no check of the baseline is gone. */
  ghost predicate LivesUpTo(candidate: Fields, baseline: Fields) {
    (forall id | States(candidate, id, false) :: States(baseline, id, false))
    && forall id | States(baseline, id, true) || States(baseline, id, false) ::
         States(candidate, id, true) || States(candidate, id, false)
  }

  lemma LivesUpToIff(candidate: Fields, baseline: Fields, now: Checks, before: Checks)
    requires StatesAll(candidate, now) && StatesAll(baseline, before)
    ensures NoWorse(now, before) <==> LivesUpTo(candidate, baseline)
  {
    hide States;
    if NoWorse(now, before) {
      forall id | States(baseline, id, true) || States(baseline, id, false)
        ensures States(candidate, id, true) || States(candidate, id, false)
      {
        assert id in before && id in now;
        assert States(candidate, id, now[id]);
      }
    }
    if LivesUpTo(candidate, baseline) {
      forall id | id in before ensures id in now {
        assert States(baseline, id, before[id]);
      }
      forall id | id in now && !now[id] ensures id in before && !before[id] {
        assert States(candidate, id, false);
      }
    }
  }

  /** The gate passes exactly a usable candidate that lives up to a usable baseline. */
  lemma GateIff(suite: Suite, candidate: Fields, baseline: Fields)
    requires Sorts(suite)
    ensures Gate(suite, candidate, baseline).success
       <==> Usable(suite, candidate) && Usable(suite, baseline) && LivesUpTo(candidate, baseline)
  {
    PassesIff(suite, candidate, baseline);
    UsableIff(suite, candidate);
    UsableIff(suite, baseline);
    hide Gate, Clean, Usable, LivesUpTo, NoWorse, ChecksOf, StatesAll, Sorts;
    if Clean(suite, candidate) && Clean(suite, baseline) {
      LivesUpToIff(candidate, baseline, ChecksOf(suite, candidate), ChecksOf(suite, baseline));
    }
  }

  /** Exactly the usable reports compact, and the compact form states the same results. */
  lemma CompactFormStates(suite: Suite, f: Fields)
    requires Sorts(suite)
    ensures Compact(suite, f).Ok? <==> Usable(suite, f)
    ensures Compact(suite, f).Ok? ==>
      forall id, result :: States(Compact(suite, f).value, id, result) <==> States(f, id, result)
  {
    CompactsIff(suite, f);
    UsableIff(suite, f);
    hide Usable, States, Compact;
    if Compact(suite, f).Ok? {
      CompactClean(suite, f);
      UsableIff(suite, Compact(suite, f).value);
      hide Clean, ChecksOf;
      var checks := ChecksOf(suite, f);
      forall id, result
        ensures States(Compact(suite, f).value, id, result) <==> States(f, id, result)
      {
        assert (id in checks && checks[id] == result) <==> States(f, id, result);
      }
    }
  }
}
