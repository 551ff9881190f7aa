/**
 The review regression reports and their gate (scripts/mcp_conformance/review_regressions.py).
 Here every check passes or fails, identities may not repeat, and a report must agree with its
 own totals. The suite's constants and `sorted` are parameters.
 */
module ReviewReport {
  import opened JsonValue
  import opened Listing

  type Case = (string, string)

  datatype Identity = Identity(mode: string, transport: string, checkId: string)

  function CaseOf(id: Identity): Case {
    (id.mode, id.transport)
  }

  type Checks = map<Identity, bool>

  datatype Key =
    | SchemaVersion | Reviewer | BaselineKind | RequiredModes | Modes | RequiredCases | Cases | Mode | Transport
    | ChecksKey | Passing | Failing | CheckId | Name | Success | Summary
    | Passed | Failed | Total | CasesPassed | CasesTotal | Other(text: string)

  type Value = Json<Key>
  type Fields = map<Key, Value>

  datatype Suite = Suite(
    modes: seq<string>, cases: set<Case>, reviewer: string,
    sortedCases: set<Case> -> seq<Case>, sorted: set<Identity> -> seq<Identity>)

  /** `sorted` lists a set, each element once, and filtering a sorted list is sorting the filtered set. */
  ghost predicate Sorts(suite: Suite) {
    (forall s: set<Identity>, id :: id in suite.sorted(s) <==> id in s)
    && (forall s: set<Identity> :: Distinct(suite.sorted(s)))
    && (forall s: set<Identity>, t: set<Identity> :: Among(suite.sorted(s), t) == suite.sorted(s * t))
    && (forall s: set<Case>, c :: c in suite.sortedCases(s) <==> c in s)
    && forall s: set<Case> :: Distinct(suite.sortedCases(s))
  }

  const SCHEMA_VERSION := 1
  const COMPACT_KIND := "mcp-review-regression-baseline-v1"
  const PREFIX := "review/"

  datatype Problem =
    | WrongSchema | WrongReviewer | WrongModes | UnsupportedBaseline | NoRequiredCases | NoCases | MalformedCase
    | UnexpectedCaseInReport | DuplicateCase | NoIdentities | NoBucket(passing: bool) | MalformedCheck | DuplicateCheck
    | NoChecks(c: Case) | InconsistentCase(c: Case) | MissingCase(c: Case) | UnexpectedCase(c: Case)
    | InconsistentTotals | InconsistentSuccess

  /** What has been read so far. */
  datatype Scan = Scan(problems: seq<Problem>, observed: set<Case>, checks: Checks)

  function Note(bad: bool, problem: Problem): seq<Problem> {
    if bad then [problem] else []
  }

  function With(s: Scan, problem: Problem): Scan {
    s.(problems := s.problems + [problem])
  }

  predicate IsCompact(f: Fields) {
    Get(f, BaselineKind) != Null
  }

  function HeaderProblems(suite: Suite, f: Fields): seq<Problem> {
    Note(!EqualsInt(Get(f, SchemaVersion), SCHEMA_VERSION), WrongSchema)
    + Note(Get(f, Reviewer) != Str(suite.reviewer), WrongReviewer)
    + Note(Get(f, if IsCompact(f) then RequiredModes else Modes) != Texts(suite.modes), WrongModes)
  }

  // ---------------------------------------------------------------- compact baselines

  function ReadRequiredCases(s: Scan, list: seq<Value>): Scan {
    if list == [] then s
    else
      var t := ReadRequiredCases(s, list[..|list| - 1]);
      var v := list[|list| - 1];
      if !v.Obj? || !Get(v.fields, Mode).Str? || !Get(v.fields, Transport).Str? then With(t, MalformedCase)
      else
        var c := (Get(v.fields, Mode).s, Get(v.fields, Transport).s);
        if c in t.observed then With(t, DuplicateCase) else t.(observed := t.observed + {c})
  }

  /** A check with a text id under the review prefix, in a required case. */
  predicate ValidIdentity(suite: Suite, id: Identity) {
    PREFIX <= id.checkId && CaseOf(id) in suite.cases
  }

  function AddCheck(s: Scan, id: Identity, success: bool): Scan {
    if id in s.checks then With(s, DuplicateCheck) else s.(checks := s.checks[id := success])
  }

  function ReadRecord(suite: Suite, v: Value): Option<Identity> {
    if !v.Obj? || !Get(v.fields, Mode).Str? || !Get(v.fields, Transport).Str? || !Get(v.fields, CheckId).Str? then None
    else
      var id := Identity(Get(v.fields, Mode).s, Get(v.fields, Transport).s, Get(v.fields, CheckId).s);
      if ValidIdentity(suite, id) then Some(id) else None
  }

  function ReadRecords(suite: Suite, s: Scan, records: seq<Value>, success: bool): Scan {
    if records == [] then s
    else
      var t := ReadRecords(suite, s, records[..|records| - 1], success);
      match ReadRecord(suite, records[|records| - 1])
      case None => With(t, MalformedCheck)
      case Some(id) => AddCheck(t, id, success)
  }

  function ReadBucket(suite: Suite, s: Scan, v: Value, success: bool): Scan {
    if v.Arr? then ReadRecords(suite, s, v.items, success) else With(s, NoBucket(success))
  }

  function ReadCompact(suite: Suite, f: Fields): Scan {
    var problems := HeaderProblems(suite, f) + Note(Get(f, BaselineKind) != Str(COMPACT_KIND), UnsupportedBaseline);
    var s := Scan(problems, {}, map[]);
    var list, checks := Get(f, RequiredCases), Get(f, ChecksKey);
    var t := if list.Arr? then ReadRequiredCases(s, list.items) else With(s, NoRequiredCases);
    var u := if checks.Obj? then t else With(t, NoIdentities);
    var buckets := if checks.Obj? then checks.fields else map[];
    ReadBucket(suite, ReadBucket(suite, u, Get(buckets, Passing), true), Get(buckets, Failing), false)
  }

  // ---------------------------------------------------------------- full reports

  /** The checks of one case and whether all that were read passed. */
  function ReadChecks(s: Scan, c: Case, raw: seq<Value>): (Scan, bool) {
    if raw == [] then (s, true)
    else
      var (t, success) := ReadChecks(s, c, raw[..|raw| - 1]);
      var v := raw[|raw| - 1];
      if !v.Obj? || !Get(v.fields, Name).Str? || !(PREFIX <= Get(v.fields, Name).s) || !Get(v.fields, Success).Bool?
      then (With(t, MalformedCheck), success)
      else
        var id := Identity(c.0, c.1, Get(v.fields, Name).s);
        if id in t.checks then (With(t, DuplicateCheck), success)
        else (t.(checks := t.checks[id := Get(v.fields, Success).b]), success && Get(v.fields, Success).b)
  }

  function ReadCase(suite: Suite, s: Scan, v: Value): Scan {
    if !v.Obj? then With(s, MalformedCase)
    else
      var mode, transport := Get(v.fields, Mode), Get(v.fields, Transport);
      if !mode.Str? || !transport.Str? || (mode.s, transport.s) !in suite.cases then With(s, UnexpectedCaseInReport)
      else
        var c := (mode.s, transport.s);
        if c in s.observed then With(s, DuplicateCase)
        else
          var t := s.(observed := s.observed + {c});
          var raw := Get(v.fields, ChecksKey);
          if !raw.Arr? || raw.items == [] then With(t, NoChecks(c))
          else
            var (u, success) := ReadChecks(t, c, raw.items);
            if Get(v.fields, Success) != Bool(success) then With(u, InconsistentCase(c)) else u
  }

  function ReadCases(suite: Suite, s: Scan, list: seq<Value>): Scan {
    if list == [] then s
    else ReadCase(suite, ReadCases(suite, s, list[..|list| - 1]), list[|list| - 1])
  }

  function ReadFull(suite: Suite, f: Fields): Scan {
    var s := Scan(HeaderProblems(suite, f), {}, map[]);
    var list := Get(f, Cases);
    ReadCases(suite, if list.Arr? then s else With(s, NoCases), if list.Arr? then list.items else [])
  }

  // ---------------------------------------------------------------- agreement with the totals

  function PassedChecks(checks: Checks): set<Identity> {
    set id | id in checks && checks[id]
  }

  predicate CasePassed(checks: Checks, c: Case) {
    (forall id | id in checks && CaseOf(id) == c :: checks[id]) && exists id :: id in checks && CaseOf(id) == c
  }

  function PassedCases(observed: set<Case>, checks: Checks): set<Case> {
    set c | c in observed && CasePassed(checks, c)
  }

  predicate AgreesWithTotals(summary: Value, observed: set<Case>, checks: Checks) {
    summary.Obj?
    && EqualsInt(Get(summary.fields, Passed), |PassedChecks(checks)|)
    && EqualsInt(Get(summary.fields, Failed), |checks| - |PassedChecks(checks)|)
    && EqualsInt(Get(summary.fields, Total), |checks|)
    && EqualsInt(Get(summary.fields, CasesPassed), |PassedCases(observed, checks)|)
    && EqualsInt(Get(summary.fields, CasesTotal), |observed|)
  }

  function CaseProblems(cases: seq<Case>, missing: bool): seq<Problem> {
    seq(|cases|, i requires 0 <= i < |cases| => if missing then MissingCase(cases[i]) else UnexpectedCase(cases[i]))
  }

  function FinalProblems(suite: Suite, f: Fields, s: Scan): seq<Problem> {
    CaseProblems(suite.sortedCases(suite.cases - s.observed), true)
    + CaseProblems(suite.sortedCases(s.observed - suite.cases), false)
    + Note(!AgreesWithTotals(Get(f, Summary), s.observed, s.checks), InconsistentTotals)
    + Note(!IsCompact(f)
           && Get(f, Success) != Bool(s.observed != {} && |s.checks| - |PassedChecks(s.checks)| == 0),
           InconsistentSuccess)
  }

  function Scanned(suite: Suite, f: Fields): Scan {
    if IsCompact(f) then ReadCompact(suite, f) else ReadFull(suite, f)
  }

  function Problems(suite: Suite, f: Fields): seq<Problem> {
    Scanned(suite, f).problems + FinalProblems(suite, f, Scanned(suite, f))
  }

  // ---------------------------------------------------------------- the gate

  datatype Side = Baseline | Candidate
  datatype Complaint = About(side: Side, problem: Problem)

  function Labelled(side: Side, problems: seq<Problem>): seq<Complaint> {
    seq(|problems|, i requires 0 <= i < |problems| => About(side, problems[i]))
  }

  datatype Verdict = Verdict(
    success: bool, errors: seq<Complaint>,
    knownFailures: seq<Identity>, newFailures: seq<Identity>,
    missingChecks: seq<Identity>, fixedChecks: seq<Identity>)

  function KnownFailures(now: Checks, before: Checks): set<Identity> {
    set id | id in now && !now[id] && id in before && !before[id]
  }

  function NewFailures(now: Checks, before: Checks): set<Identity> {
    set id | id in now && !now[id] && !(id in before && !before[id])
  }

  function FixedChecks(now: Checks, before: Checks): set<Identity> {
    set id | id in before && id in now && !before[id] && now[id]
  }

  function Judge(suite: Suite, now: Checks, before: Checks, errors: seq<Complaint>): Verdict {
    var broken, missing := suite.sorted(NewFailures(now, before)), suite.sorted(before.Keys - now.Keys);
    Verdict(errors == [] && broken == [] && missing == [], errors,
            suite.sorted(KnownFailures(now, before)), broken, missing, suite.sorted(FixedChecks(now, before)))
  }

  function Gate(suite: Suite, candidate: Fields, baseline: Fields): Verdict {
    Judge(suite, Scanned(suite, candidate).checks, Scanned(suite, baseline).checks,
          Labelled(Baseline, Problems(suite, baseline)) + Labelled(Candidate, Problems(suite, candidate)))
  }
}
