/**
 Which full review reports have no problem (scripts/mcp_conformance/review_regressions.py),
 said about their cases and checks and not about the loops that read them.
 */
module ReviewClean {
  import opened JsonValue
  import opened ReviewReport
  import opened ReviewCompaction

  // ---------------------------------------------------------------- the checks of one case

  predicate GoodCheck(v: Value) {
    v.Obj? && Get(v.fields, Name).Str? && "review/" <= Get(v.fields, Name).s && Get(v.fields, Success).Bool?
  }

  function NameOf(v: Value): string
    requires GoodCheck(v)
  {
    Get(v.fields, Name).s
  }

  function ResultOf(v: Value): bool
    requires GoodCheck(v)
  {
    Get(v.fields, Success).b
  }

  /** Every check has a name under the review prefix and a result, and no name occurs twice. */
  predicate GoodChecks(raw: seq<Value>) {
    (forall i | 0 <= i < |raw| :: GoodCheck(raw[i]))
    && forall i, j | 0 <= i < j < |raw| :: NameOf(raw[i]) != NameOf(raw[j])
  }

  predicate AllPass(raw: seq<Value>)
    requires GoodChecks(raw)
  {
    forall i | 0 <= i < |raw| :: ResultOf(raw[i])
  }

  /** The results of a case, check by check. */
  function ResultsOf(c: Case, raw: seq<Value>): Checks
    requires GoodChecks(raw)
  {
    if raw == [] then map[]
    else
      var n := |raw| - 1;
      ResultsOf(c, raw[..n])[Identity(c.0, c.1, NameOf(raw[n])) := ResultOf(raw[n])]
  }

  /** Exactly the checks listed, each with its own result. */
  lemma {:induction false} ResultsListed(c: Case, raw: seq<Value>, id: Identity)
    requires GoodChecks(raw)
    ensures id in ResultsOf(c, raw)
       <==> CaseOf(id) == c && exists i :: 0 <= i < |raw| && NameOf(raw[i]) == id.checkId
    ensures forall i | 0 <= i < |raw| && CaseOf(id) == c && NameOf(raw[i]) == id.checkId ::
      id in ResultsOf(c, raw) && ResultsOf(c, raw)[id] == ResultOf(raw[i])
  {
    if raw != [] {
      var n := |raw| - 1;
      ResultsListed(c, raw[..n], id);
      assert forall i | 0 <= i < n :: raw[..n][i] == raw[i];
      if CaseOf(id) == c && NameOf(raw[n]) == id.checkId {
        assert id == Identity(c.0, c.1, NameOf(raw[n]));
      }
    }
  }

  /** No check of the case has been read before. */
  predicate Unread(s: Scan, c: Case) {
    forall id | id in s.checks :: CaseOf(id) != c
  }

  lemma {:induction false} ProblemsGrow(s: Scan, c: Case, raw: seq<Value>)
    ensures s.problems <= ReadChecks(s, c, raw).0.problems
  {
    if raw != [] {
      ProblemsGrow(s, c, raw[..|raw| - 1]);
    }
  }

  lemma GoodPrefix(raw: seq<Value>, n: nat)
    requires n <= |raw| && GoodChecks(raw)
    ensures GoodChecks(raw[..n])
  {
  }

  lemma AddedLast(a: Checks, b: Checks, id: Identity, result: bool)
    ensures (a + b)[id := result] == a + b[id := result]
  {
  }

  /** Good checks are read without a problem. */
  lemma {:induction false} GoodChecksRead(s: Scan, c: Case, raw: seq<Value>)
    requires Unread(s, c) && GoodChecks(raw)
    ensures ReadChecks(s, c, raw) == (s.(checks := s.checks + ResultsOf(c, raw)), AllPass(raw))
  {
    if raw == [] {
      assert s.checks + map[] == s.checks;
    } else {
      var n := |raw| - 1;
      GoodPrefix(raw, n);
      GoodChecksRead(s, c, raw[..n]);
      var id := Identity(c.0, c.1, NameOf(raw[n]));
      ResultsListed(c, raw[..n], id);
      assert forall i | 0 <= i < n :: raw[..n][i] == raw[i];
      assert id !in s.checks + ResultsOf(c, raw[..n]);
      AddedLast(s.checks, ResultsOf(c, raw[..n]), id, ResultOf(raw[n]));
    }
  }

  /** Any others leave a problem. */
  lemma {:induction false} BadChecksNoted(s: Scan, c: Case, raw: seq<Value>)
    requires Unread(s, c) && !GoodChecks(raw)
    ensures |ReadChecks(s, c, raw).0.problems| > |s.problems|
  {
    var n := |raw| - 1;
    ProblemsGrow(s, c, raw[..n]);
    if GoodChecks(raw[..n]) {
      GoodChecksRead(s, c, raw[..n]);
      if GoodCheck(raw[n]) {
        assert forall i | 0 <= i < n :: raw[..n][i] == raw[i];
        var id := Identity(c.0, c.1, NameOf(raw[n]));
        ResultsListed(c, raw[..n], id);
      }
    } else {
      BadChecksNoted(s, c, raw[..n]);
    }
  }

  // ---------------------------------------------------------------- the cases

  predicate GoodCase(suite: Suite, v: Value) {
    v.Obj? && Get(v.fields, Mode).Str? && Get(v.fields, Transport).Str? && CaseIn(v) in suite.cases
    && ChecksIn(v) != [] && GoodChecks(ChecksIn(v)) && Get(v.fields, Success) == Bool(AllPass(ChecksIn(v)))
  }

  function CaseIn(v: Value): Case
    requires v.Obj? && Get(v.fields, Mode).Str? && Get(v.fields, Transport).Str?
  {
    (Get(v.fields, Mode).s, Get(v.fields, Transport).s)
  }

  function ChecksIn(v: Value): seq<Value>
    requires v.Obj?
  {
    var raw := Get(v.fields, ChecksKey);
    if raw.Arr? then raw.items else []
  }

  /** Every case is a required one, in order in itself, and none occurs twice. */
  predicate GoodCases(suite: Suite, list: seq<Value>) {
    (forall i | 0 <= i < |list| :: GoodCase(suite, list[i]))
    && forall i, j | 0 <= i < j < |list| :: CaseIn(list[i]) != CaseIn(list[j])
  }

  function CasesListed(suite: Suite, list: seq<Value>): set<Case>
    requires GoodCases(suite, list)
  {
    set i | 0 <= i < |list| :: CaseIn(list[i])
  }

  /** All results, case by case. */
  function AllResults(suite: Suite, list: seq<Value>): Checks
    requires GoodCases(suite, list)
  {
    if list == [] then map[]
    else
      var n := |list| - 1;
      AllResults(suite, list[..n]) + ResultsOf(CaseIn(list[n]), ChecksIn(list[n]))
  }

  lemma ResultsCase(c: Case, raw: seq<Value>)
    requires GoodChecks(raw)
    ensures forall id | id in ResultsOf(c, raw) :: CaseOf(id) == c
  {
    forall id | id in ResultsOf(c, raw) ensures CaseOf(id) == c {
      ResultsListed(c, raw, id);
    }
  }

  /** Good cases with one more are good exactly if that one is good and new. */
  lemma GoodCasesAppend(suite: Suite, list: seq<Value>)
    requires list != [] && GoodCases(suite, list[..|list| - 1])
    ensures
      var n := |list| - 1;
      GoodCases(suite, list)
      <==> GoodCase(suite, list[n]) && CaseIn(list[n]) !in CasesListed(suite, list[..n])
    ensures
      GoodCases(suite, list) ==>
        CasesListed(suite, list) == CasesListed(suite, list[..|list| - 1]) + {CaseIn(list[|list| - 1])}
  {
    hide GoodChecks, AllPass;
    var n := |list| - 1;
    assert forall i | 0 <= i < n :: list[..n][i] == list[i];
    if GoodCase(suite, list[n]) && CaseIn(list[n]) !in CasesListed(suite, list[..n]) {
      forall i | 0 <= i < n ensures CaseIn(list[i]) != CaseIn(list[n]) {
        assert CaseIn(list[..n][i]) in CasesListed(suite, list[..n]);
      }
    }
    if GoodCases(suite, list) {
      assert CasesListed(suite, list) == CasesListed(suite, list[..n]) + {CaseIn(list[n])};
    }
  }

  lemma GoodCasesPrefix(suite: Suite, list: seq<Value>, n: nat)
    requires n <= |list| && GoodCases(suite, list)
    ensures GoodCases(suite, list[..n])
  {
    hide GoodChecks, AllPass;
  }

  lemma {:induction false} ResultsOfListed(suite: Suite, list: seq<Value>, id: Identity)
    requires GoodCases(suite, list) && id in AllResults(suite, list)
    ensures CaseOf(id) in CasesListed(suite, list)
  {
    var n := |list| - 1;
    GoodCasesPrefix(suite, list, n);
    GoodCasesAppend(suite, list);
    ResultsCase(CaseIn(list[n]), ChecksIn(list[n]));
    hide GoodCases, CasesListed, ResultsOf;
    if id in AllResults(suite, list[..n]) {
      ResultsOfListed(suite, list[..n], id);
    }
  }

  lemma LastResults(suite: Suite, list: seq<Value>, id: Identity)
    requires list != [] && GoodCases(suite, list) && GoodCases(suite, list[..|list| - 1])
    ensures
      var n := |list| - 1;
      var before, results := AllResults(suite, list[..n]), ResultsOf(CaseIn(list[n]), ChecksIn(list[n]));
      if CaseOf(id) == CaseIn(list[n]) then id !in before else id !in results
  {
    var n := |list| - 1;
    GoodCasesAppend(suite, list);
    ResultsCase(CaseIn(list[n]), ChecksIn(list[n]));
    hide CasesListed, ResultsOf, GoodCases, AllResults;
    if id in AllResults(suite, list[..n]) {
      ResultsOfListed(suite, list[..n], id);
    }
  }

  /** The results are exactly those of the listed cases: the checks of each case, with their own results. */
  lemma {:induction false} AllResultsListed(suite: Suite, list: seq<Value>, i: nat, id: Identity)
    requires GoodCases(suite, list) && i < |list| && CaseIn(list[i]) == CaseOf(id)
    ensures
      var results := ResultsOf(CaseOf(id), ChecksIn(list[i]));
      (id in AllResults(suite, list) <==> id in results)
      && (id in results ==> AllResults(suite, list)[id] == results[id])
  {
    hide ResultsOf, GoodChecks, AllPass;
    var n := |list| - 1;
    GoodCasesPrefix(suite, list, n);
    LastResults(suite, list, id);
    if i < n {
      assert list[..n][i] == list[i] && CaseIn(list[i]) != CaseIn(list[n]);
      AllResultsListed(suite, list[..n], i, id);
    }
  }

  /** Every check read belongs to a case observed. */
  predicate Tidy(s: Scan) {
    forall id | id in s.checks :: CaseOf(id) in s.observed
  }

  lemma GoodCaseReads(suite: Suite, s: Scan, v: Value)
    requires Tidy(s) && GoodCase(suite, v) && CaseIn(v) !in s.observed
    ensures ReadCase(suite, s, v)
         == s.(observed := s.observed + {CaseIn(v)}, checks := s.checks + ResultsOf(CaseIn(v), ChecksIn(v)))
  {
    hide GoodChecks, AllPass, ReadChecks;
    GoodChecksRead(s.(observed := s.observed + {CaseIn(v)}), CaseIn(v), ChecksIn(v));
  }

  lemma BadCaseNoted(suite: Suite, s: Scan, v: Value)
    requires Tidy(s) && !(GoodCase(suite, v) && CaseIn(v) !in s.observed)
    ensures |ReadCase(suite, s, v).problems| > |s.problems|
  {
    hide GoodChecks, AllPass, ReadChecks, ResultsOf;
    if v.Obj? && Get(v.fields, Mode).Str? && Get(v.fields, Transport).Str? && CaseIn(v) !in s.observed {
      var c, t := CaseIn(v), s.(observed := s.observed + {CaseIn(v)});
      if GoodChecks(ChecksIn(v)) {
        GoodChecksRead(t, c, ChecksIn(v));
      } else {
        BadChecksNoted(t, c, ChecksIn(v));
      }
    }
  }

  lemma {:induction false} ChecksKeepCase(s: Scan, c: Case, raw: seq<Value>)
    ensures ReadChecks(s, c, raw).0.observed == s.observed
    ensures forall id | id in ReadChecks(s, c, raw).0.checks :: id in s.checks || CaseOf(id) == c
  {
    if raw != [] {
      ChecksKeepCase(s, c, raw[..|raw| - 1]);
    }
  }

  lemma CaseKeeps(suite: Suite, s: Scan, v: Value)
    requires Tidy(s)
    ensures Tidy(ReadCase(suite, s, v)) && |ReadCase(suite, s, v).problems| >= |s.problems|
  {
    if v.Obj? && Get(v.fields, Mode).Str? && Get(v.fields, Transport).Str? && CaseIn(v) !in s.observed {
      var t := s.(observed := s.observed + {CaseIn(v)});
      ChecksKeepCase(t, CaseIn(v), ChecksIn(v));
      ProblemsGrow(t, CaseIn(v), ChecksIn(v));
      hide ReadChecks;
    }
  }

  lemma {:induction false} CasesKeep(suite: Suite, s: Scan, list: seq<Value>)
    requires Tidy(s)
    ensures Tidy(ReadCases(suite, s, list)) && |ReadCases(suite, s, list).problems| >= |s.problems|
  {
    if list != [] {
      CasesKeep(suite, s, list[..|list| - 1]);
      CaseKeeps(suite, ReadCases(suite, s, list[..|list| - 1]), list[|list| - 1]);
    }
  }

  /** Good cases are read without a problem. */
  lemma {:induction false} GoodCasesRead(suite: Suite, problems: seq<Problem>, list: seq<Value>)
    requires GoodCases(suite, list)
    ensures ReadCases(suite, Scan(problems, {}, map[]), list)
         == Scan(problems, CasesListed(suite, list), AllResults(suite, list))
  {
    if list == [] {
      assert CasesListed(suite, list) == {};
    } else {
      var n := |list| - 1;
      GoodCasesPrefix(suite, list, n);
      GoodCasesAppend(suite, list);
      GoodCasesRead(suite, problems, list[..n]);
      CasesKeep(suite, Scan(problems, {}, map[]), list[..n]);
      GoodCaseReads(suite, ReadCases(suite, Scan(problems, {}, map[]), list[..n]), list[n]);
      hide ReadCase, GoodCases, CasesListed, ResultsOf;
    }
  }

  /** Any others leave a problem. */
  lemma {:induction false} BadCasesNoted(suite: Suite, problems: seq<Problem>, list: seq<Value>)
    requires !GoodCases(suite, list)
    ensures |ReadCases(suite, Scan(problems, {}, map[]), list).problems| > |problems|
  {
    var n := |list| - 1;
    var s := Scan(problems, {}, map[]);
    var t := ReadCases(suite, s, list[..n]);
    CasesKeep(suite, s, list[..n]);
    CaseKeeps(suite, t, list[n]);
    hide ReadCase, GoodCase, CasesListed;
    if GoodCases(suite, list[..n]) {
      GoodCasesRead(suite, problems, list[..n]);
      GoodCasesAppend(suite, list);
      BadCaseNoted(suite, t, list[n]);
    } else {
      BadCasesNoted(suite, problems, list[..n]);
    }
  }

  // ---------------------------------------------------------------- the whole report

  /** The value counts so many: an integer, an equal float, or a boolean standing for one or zero. */
  predicate Counts(v: Value, n: int) {
    v == Int(n) || v == Float(n as real) || (v == Bool(true) && n == 1) || (v == Bool(false) && n == 0)
  }

  lemma CountsIff(v: Value, n: int)
    ensures EqualsInt(v, n) <==> Counts(v, n)
  {
  }

  predicate GoodHeader(suite: Suite, f: Fields) {
    Counts(Get(f, SchemaVersion), 1) && Get(f, Reviewer) == Str(suite.reviewer)
    && Get(f, if Get(f, BaselineKind) == Null then Modes else RequiredModes) == Texts(suite.modes)
  }

  lemma HeaderIff(suite: Suite, f: Fields)
    ensures HeaderProblems(suite, f) == [] <==> GoodHeader(suite, f)
  {
    CountsIff(Get(f, SchemaVersion), 1);
    hide EqualsInt, Texts, Counts;
  }

  // ---------------------------------------------------------------- totals

  /** Some check of the case passed and none failed. */
  predicate AllGood(c: Case, checks: Checks) {
    (exists id :: id in checks && (id.mode, id.transport) == c && checks[id])
    && !exists id :: id in checks && (id.mode, id.transport) == c && !checks[id]
  }

  /** The summary counts the checks that passed, those that failed, all of them, and the cases likewise. */
  predicate TotalsAgree(summary: Value, cases: set<Case>, checks: Checks) {
    summary.Obj?
    && Counts(Get(summary.fields, Passed), |set id | id in checks && checks[id]|)
    && Counts(Get(summary.fields, Failed), |set id | id in checks && !checks[id]|)
    && Counts(Get(summary.fields, Total), |checks|)
    && Counts(Get(summary.fields, CasesPassed), |set c | c in cases && AllGood(c, checks)|)
    && Counts(Get(summary.fields, CasesTotal), |cases|)
  }

  lemma FailedCount(checks: Checks)
    ensures |checks| - |PassedChecks(checks)| == |set id | id in checks && !checks[id]|
  {
    var passed, failed := PassedChecks(checks), set id | id in checks && !checks[id];
    assert checks.Keys == passed + failed && passed !! failed;
  }

  lemma TotalsIff(summary: Value, cases: set<Case>, checks: Checks)
    ensures AgreesWithTotals(summary, cases, checks) <==> TotalsAgree(summary, cases, checks)
  {
    FailedCount(checks);
    var passed, good := PassedChecks(checks), set c | c in cases && AllGood(c, checks);
    assert passed == set id | id in checks && checks[id];
    assert forall c :: CasePassed(checks, c) <==> AllGood(c, checks) by {
      forall c ensures CasePassed(checks, c) <==> AllGood(c, checks) {
        if CasePassed(checks, c) {
          var id :| id in checks && CaseOf(id) == c;
          assert checks[id] && (id.mode, id.transport) == c;
        }
      }
    }
    hide AllGood, CasePassed;
    assert PassedCases(cases, checks) == good;
    if summary.Obj? {
      CountsIff(Get(summary.fields, Passed), |passed|);
      CountsIff(Get(summary.fields, Failed), |checks| - |passed|);
      CountsIff(Get(summary.fields, Total), |checks|);
      CountsIff(Get(summary.fields, CasesPassed), |good|);
      CountsIff(Get(summary.fields, CasesTotal), |cases|);
    }
    hide EqualsInt, Counts, PassedCases, PassedChecks;
  }

  lemma NothingFailedIff(checks: Checks)
    ensures |checks| - |PassedChecks(checks)| == 0 <==> forall id | id in checks :: checks[id]
  {
    var passed := PassedChecks(checks);
    if forall id | id in checks :: checks[id] {
      assert passed == checks.Keys;
    } else {
      var id :| id in checks && !checks[id];
      assert passed <= checks.Keys - {id};
      SubsetSize(passed, checks.Keys - {id});
    }
  }

  lemma {:induction false} SubsetSize(a: set<Identity>, b: set<Identity>)
    requires a <= b
    ensures |a| <= |b|
  {
    if a != {} {
      var x :| x in a;
      SubsetSize(a - {x}, b - {x});
    }
  }

  /** A full report that is in order: the cases required and no others, and totals and success that agree with them. */
  predicate InOrder(suite: Suite, f: Fields) {
    GoodHeader(suite, f) && Get(f, Cases).Arr? && GoodCases(suite, Get(f, Cases).items)
    && CasesListed(suite, Get(f, Cases).items) == suite.cases
    && var results := AllResults(suite, Get(f, Cases).items);
       TotalsAgree(Get(f, Summary), suite.cases, results)
       && Get(f, Success) == Bool(suite.cases != {} && forall id | id in results :: results[id])
  }

  lemma ReadFullIff(suite: Suite, f: Fields)
    requires !IsCompact(f)
    ensures
      ReadFull(suite, f).problems == []
      <==> GoodHeader(suite, f) && Get(f, Cases).Arr? && GoodCases(suite, Get(f, Cases).items)
    ensures
      ReadFull(suite, f).problems == [] ==>
        ReadFull(suite, f)
        == Scan([], CasesListed(suite, Get(f, Cases).items), AllResults(suite, Get(f, Cases).items))
  {
    HeaderIff(suite, f);
    var list := Get(f, Cases);
    hide GoodHeader, HeaderProblems, GoodCases, ReadCases, CasesListed, AllResults;
    if !list.Arr? {
      CasesKeep(suite, With(Scan(HeaderProblems(suite, f), {}, map[]), NoCases), []);
    } else if GoodCases(suite, list.items) {
      GoodCasesRead(suite, HeaderProblems(suite, f), list.items);
    } else {
      BadCasesNoted(suite, HeaderProblems(suite, f), list.items);
    }
  }

  lemma FinalIff(suite: Suite, f: Fields, s: Scan)
    requires Sorts(suite) && !IsCompact(f)
    ensures FinalProblems(suite, f, s) == []
      <==> s.observed == suite.cases && TotalsAgree(Get(f, Summary), suite.cases, s.checks)
           && Get(f, Success) == Bool(suite.cases != {} && forall id | id in s.checks :: s.checks[id])
  {
    NoCaseProblems(suite, suite.cases - s.observed, true);
    NoCaseProblems(suite, s.observed - suite.cases, false);
    NothingFailedIff(s.checks);
    TotalsIff(Get(f, Summary), s.observed, s.checks);
    hide Sorts, CaseProblems, AgreesWithTotals, TotalsAgree, PassedChecks;
    assert s.observed == suite.cases <==> suite.cases - s.observed == {} && s.observed - suite.cases == {};
  }

  /** A full report has no problem exactly if it is in order, and its checks are then the results listed. */
  lemma FullCleanIff(suite: Suite, f: Fields)
    requires Sorts(suite) && !IsCompact(f)
    ensures Clean(suite, f) <==> InOrder(suite, f)
    ensures Clean(suite, f) ==> ChecksOf(suite, f) == AllResults(suite, Get(f, Cases).items)
  {
    ReadFullIff(suite, f);
    FinalIff(suite, f, ReadFull(suite, f));
    hide ReadFull, FinalProblems, GoodHeader, GoodCases, CasesListed, AllResults, AgreesWithTotals, TotalsAgree, Sorts;
  }
}
