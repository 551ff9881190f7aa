/**
 Which errors the review gate gives (scripts/mcp_conformance/review_regressions.py): for every
 kind of error, what about a report document brings it about.
 */
module ReviewErrors {
  import opened JsonValue
  import opened Listing
  import opened ReviewReport
  import opened ReviewCompaction
  import opened ReviewClean
  import opened ReviewVerdict
  import opened ReviewShown

  // ---------------------------------------------------------------- the faults of a document

  predicate HeaderFault(suite: Suite, f: Fields, p: Problem) {
    match p
    case WrongSchema => !Counts(Get(f, SchemaVersion), 1)
    case WrongReviewer => Get(f, Reviewer) != Str(suite.reviewer)
    case WrongModes => Get(f, if Get(f, BaselineKind) == Null then Modes else RequiredModes) != Texts(suite.modes)
    case _ => false
  }

  /** A list of checks has one that is not well-formed. */
  predicate SomeBadCheck(raw: seq<Value>) {
    exists j :: 0 <= j < |raw| && !GoodCheck(raw[j])
  }

  /** Two well-formed checks of the list have the same name. */
  predicate NameRepeats(raw: seq<Value>, j: nat) {
    j < |raw| && GoodCheck(raw[j]) && HasName(raw[..j], NameOf(raw[j]))
  }

  predicate SomeNameRepeats(raw: seq<Value>) {
    exists j :: 0 <= j < |raw| && NameRepeats(raw, j)
  }

  predicate HasChecks(v: Value) {
    v.Obj? && Get(v.fields, ChecksKey).Arr? && Get(v.fields, ChecksKey).items != []
  }

  /** The fault of a case that is read. */
  ghost predicate ReadFault(v: Value, c: Case, p: Problem) {
    if !HasChecks(v) then p == NoChecks(c)
    else
      var raw := Get(v.fields, ChecksKey).items;
      (p == MalformedCheck && SomeBadCheck(raw)) || (p == DuplicateCheck && SomeNameRepeats(raw))
      || (p == InconsistentCase(c) && Get(v.fields, Success) != Bool(NoFailure(raw)))
  }

  /** The fault of the case at this place. */
  ghost predicate CaseFault(suite: Suite, list: seq<Value>, i: nat, p: Problem)
    requires i < |list|
  {
    if !list[i].Obj? then p == MalformedCase
    else if !NamesCase(list[i]) || CaseIn(list[i]) !in suite.cases then p == UnexpectedCaseInReport
    else if NamedIn(list[..i], CaseIn(list[i])) then p == DuplicateCase
    else ReadFault(list[i], CaseIn(list[i]), p)
  }

  ghost predicate SomeCaseFault(suite: Suite, list: seq<Value>, p: Problem) {
    exists i :: 0 <= i < |list| && CaseFault(suite, list, i, p)
  }

  /** The fault of the required cases a compact baseline lists. */
  predicate RequiredFault(list: seq<Value>, p: Problem) {
    (p == MalformedCase && exists i :: 0 <= i < |list| && !NamesCase(list[i]))
    || (p == DuplicateCase && exists i :: 0 <= i < |list| && CaseRepeats(list, i))
  }

  predicate CaseRepeats(list: seq<Value>, i: nat) {
    i < |list| && NamesCase(list[i]) && NamedIn(list[..i], CaseIn(list[i]))
  }

  /** The fault of a bucket, given what has been shown before it. */
  ghost predicate BucketFault(suite: Suite, taken: iset<Identity>, v: Value, result: bool, p: Problem) {
    if !v.Arr? then p == NoBucket(result)
    else
      (p == MalformedCheck && SomeBadRecord(suite, v.items))
      || (p == DuplicateCheck && SomeRepeats(suite, taken, v.items))
  }

  ghost predicate RecordRepeats(suite: Suite, taken: iset<Identity>, records: seq<Value>, i: nat, id: Identity) {
    i < |records| && IsRecordOf(suite, records[i], id) && (id in taken || RecordedIn(suite, records[..i], id))
  }

  /** The fault of a form: what its lists of cases and checks are wrong in. */
  ghost predicate FormFault(suite: Suite, f: Fields, p: Problem) {
    if Get(f, BaselineKind) == Null then
      if Get(f, Cases).Arr? then SomeCaseFault(suite, Get(f, Cases).items, p) else p == NoCases
    else
      (p == UnsupportedBaseline && Get(f, BaselineKind) != Str("mcp-review-regression-baseline-v1"))
      || (if Get(f, RequiredCases).Arr? then RequiredFault(Get(f, RequiredCases).items, p) else p == NoRequiredCases)
      || (p == NoIdentities && !Get(f, ChecksKey).Obj?)
      || BucketFault(suite, iset{}, BucketOf(f, true), true, p)
      || BucketFault(suite, (iset id | BucketShows(suite, BucketOf(f, true), id)), BucketOf(f, false), false, p)
  }

  /** These are the cases a report has and the results it shows. */
  ghost predicate Amounts(suite: Suite, f: Fields, cases: set<Case>, checks: Checks) {
    (forall c :: c in cases <==> Lists(suite, f, c))
    && forall id, result :: Has(checks, id, result) <==> Shows(suite, f, id, result)
  }

  /** What is wrong with a report as a whole. */
  ghost predicate FinalFault(suite: Suite, f: Fields, p: Problem) {
    match p
    case MissingCase(c) => c in suite.cases && !Lists(suite, f, c)
    case UnexpectedCase(c) => Lists(suite, f, c) && c !in suite.cases
    case InconsistentTotals =>
      forall cases, checks | Amounts(suite, f, cases, checks) :: !TotalsAgree(Get(f, Summary), cases, checks)
    case InconsistentSuccess =>
      Get(f, BaselineKind) == Null
      && Get(f, Success) != Bool((exists c :: Lists(suite, f, c)) && forall id :: !Shows(suite, f, id, false))
    case _ => false
  }

  /** The document has the fault an error is about. */
  ghost predicate Faulty(suite: Suite, f: Fields, p: Problem) {
    HeaderFault(suite, f, p) || FormFault(suite, f, p) || FinalFault(suite, f, p)
  }

  // ---------------------------------------------------------------- the header

  lemma NoteHas(bad: bool, q: Problem, p: Problem)
    ensures p in Note(bad, q) <==> bad && p == q
  {
  }

  lemma HeaderIff(suite: Suite, f: Fields, p: Problem)
    ensures p in HeaderProblems(suite, f) <==> HeaderFault(suite, f, p)
  {
    CountsIff(Get(f, SchemaVersion), 1);
    hide Note, EqualsInt, Counts, Texts;
    NoteHas(!EqualsInt(Get(f, SchemaVersion), SCHEMA_VERSION), WrongSchema, p);
    NoteHas(Get(f, Reviewer) != Str(suite.reviewer), WrongReviewer, p);
    NoteHas(Get(f, if IsCompact(f) then RequiredModes else Modes) != Texts(suite.modes), WrongModes, p);
  }

  // ---------------------------------------------------------------- full reports

  lemma BadCheckAppend(raw: seq<Value>)
    requires raw != []
    ensures
      var n := |raw| - 1;
      (SomeBadCheck(raw) <==> SomeBadCheck(raw[..n]) || !GoodCheck(raw[n]))
      && (SomeNameRepeats(raw) <==> SomeNameRepeats(raw[..n]) || NameRepeats(raw, n))
  {
    var n := |raw| - 1;
    assert forall j | 0 <= j < n :: raw[..n][j] == raw[j] && raw[..n][..j] == raw[..j];
    hide GoodCheck, HasName;
    forall j: nat | j < n ensures NameRepeats(raw[..n], j) == NameRepeats(raw, j) {
    }
    hide NameRepeats;
  }

  /** The problems of a case's checks. */
  lemma {:induction false} ChecksIff(s: Scan, c: Case, raw: seq<Value>, p: Problem)
    requires Unread(s, c)
    ensures p in ReadChecks(s, c, raw).0.problems
       <==> p in s.problems || (p == MalformedCheck && SomeBadCheck(raw))
            || (p == DuplicateCheck && SomeNameRepeats(raw))
  {
    if raw != [] {
      var n := |raw| - 1;
      ChecksIff(s, c, raw[..n], p);
      ChecksStep(s, c, raw);
      BadCheckAppend(raw);
      ChecksShow(s, c, raw[..n]);
      var t := ReadChecks(s, c, raw[..n]).0;
      hide ReadChecks, GoodCheck, SomeBadCheck, SomeNameRepeats, AddsRaw, Unread, HasName, NoFailure;
      if GoodCheck(raw[n]) {
        ReadIffNamed(s, t, c, raw[..n], NameOf(raw[n]));
      }
    }
  }

  /** The problem of a case that is read. */
  lemma ReadCaseIff(suite: Suite, t: Scan, v: Value, p: Problem)
    requires NamesCase(v) && CaseIn(v) in suite.cases && CaseIn(v) !in t.observed && Unread(t, CaseIn(v))
    ensures p in ReadCase(suite, t, v).problems <==> p in t.problems || ReadFault(v, CaseIn(v), p)
  {
    var c := CaseIn(v);
    var s := t.(observed := t.observed + {c});
    assert Unread(s, c);
    if HasChecks(v) {
      ChecksIff(s, c, Get(v.fields, ChecksKey).items, p);
      ChecksShow(s, c, Get(v.fields, ChecksKey).items);
    }
    hide ReadChecks, SomeBadCheck, SomeNameRepeats, NoFailure, AddsRaw;
  }

  lemma {:induction false} CasesIff(suite: Suite, s: Scan, list: seq<Value>, p: Problem)
    requires s.observed == {} && s.checks == map[]
    ensures p in ReadCases(suite, s, list).problems <==> p in s.problems || SomeCaseFault(suite, list, p)
  {
    if list != [] {
      var n := |list| - 1;
      CasesIff(suite, s, list[..n], p);
      CasesShow(suite, s, list[..n]);
      CaseFaultAppend(suite, list, p);
      var t := ReadCases(suite, s, list[..n]);
      CaseStep(suite, list, t, p);
      hide ReadCase, CaseFault, SomeCaseFault, ReadOf;
    }
  }

  lemma CaseFaultAppend(suite: Suite, list: seq<Value>, p: Problem)
    requires list != []
    ensures
      var n := |list| - 1;
      SomeCaseFault(suite, list, p) <==> SomeCaseFault(suite, list[..n], p) || CaseFault(suite, list, n, p)
  {
    var n := |list| - 1;
    forall i | 0 <= i < n ensures CaseFault(suite, list[..n], i, p) == CaseFault(suite, list, i, p) {
      assert list[..n][i] == list[i] && list[..n][..i] == list[..i];
    }
    hide CaseFault;
  }

  lemma CaseStep(suite: Suite, list: seq<Value>, t: Scan, p: Problem)
    requires list != [] && ReadOf(suite, list[..|list| - 1], t)
    ensures
      var n := |list| - 1;
      p in ReadCase(suite, t, list[n]).problems <==> p in t.problems || CaseFault(suite, list, n, p)
  {
    var n := |list| - 1;
    var v, front := list[n], list[..n];
    if NamesCase(v) && CaseIn(v) in suite.cases && !NamedIn(front, CaseIn(v)) {
      NewIsUnread(suite, front, t, CaseIn(v));
      ReadCaseIff(suite, t, v, p);
      hide ReadCase, ReadFault, NamedIn, ListShows;
    } else {
      hide ReadChecks, NamedIn, ListShows, ReadFault;
    }
  }

  // ---------------------------------------------------------------- compact baselines

  lemma {:induction false} RequiredIff(s: Scan, list: seq<Value>, p: Problem)
    requires s.observed == {}
    ensures p in ReadRequiredCases(s, list).problems <==> p in s.problems || RequiredFault(list, p)
  {
    if list != [] {
      var n := |list| - 1;
      RequiredIff(s, list[..n], p);
      RequiredStep(s, list);
      RequiredListed(s, list[..n]);
      RequiredAppends(list, p);
      hide ReadRequiredCases, RequiredFault, NamedIn;
    }
  }

  lemma RequiredAppends(list: seq<Value>, p: Problem)
    requires list != []
    ensures
      var n := |list| - 1;
      RequiredFault(list, p)
      <==> RequiredFault(list[..n], p) || (p == MalformedCase && !NamesCase(list[n]))
           || (p == DuplicateCase && NamesCase(list[n]) && NamedIn(list[..n], CaseIn(list[n])))
  {
    var n := |list| - 1;
    forall i: nat | i < n
      ensures CaseRepeats(list[..n], i) == CaseRepeats(list, i) && NamesCase(list[..n][i]) == NamesCase(list[i])
    {
      assert list[..n][i] == list[i] && list[..n][..i] == list[..i];
    }
    assert CaseRepeats(list, n) <==> NamesCase(list[n]) && NamedIn(list[..n], CaseIn(list[n]));
    hide CaseRepeats, NamesCase, NamedIn;
  }

  predicate SomeBadRecord(suite: Suite, records: seq<Value>) {
    exists i :: 0 <= i < |records| && !GoodRecord(suite, records[i])
  }

  ghost predicate SomeRepeats(suite: Suite, taken: iset<Identity>, records: seq<Value>) {
    exists i: nat, id :: RecordRepeats(suite, taken, records, i, id)
  }

  ghost predicate LastRepeats(suite: Suite, taken: iset<Identity>, records: seq<Value>, n: nat) {
    exists id :: RecordRepeats(suite, taken, records, n, id)
  }

  lemma RecordsAppend(suite: Suite, taken: iset<Identity>, records: seq<Value>)
    requires records != []
    ensures
      var n := |records| - 1;
      (SomeBadRecord(suite, records) <==> SomeBadRecord(suite, records[..n]) || !GoodRecord(suite, records[n]))
      && (SomeRepeats(suite, taken, records)
          <==> SomeRepeats(suite, taken, records[..n]) || LastRepeats(suite, taken, records, n))
  {
    var n := |records| - 1;
    assert forall i | 0 <= i < n :: records[..n][i] == records[i] && records[..n][..i] == records[..i];
    hide GoodRecord, IsRecordOf, RecordedIn;
    if i: nat, id :| RecordRepeats(suite, taken, records, i, id) {
      if i < n {
        assert RecordRepeats(suite, taken, records[..n], i, id);
      } else {
        assert RecordRepeats(suite, taken, records, n, id);
      }
    }
    if i: nat, id :| RecordRepeats(suite, taken, records[..n], i, id) {
      assert RecordRepeats(suite, taken, records, i, id);
    }
  }

  lemma {:induction false} RecordsIff(suite: Suite, s: Scan, records: seq<Value>, success: bool, p: Problem)
    ensures p in ReadRecords(suite, s, records, success).problems
       <==> p in s.problems || (p == MalformedCheck && SomeBadRecord(suite, records))
            || (p == DuplicateCheck && SomeRepeats(suite, (iset id | id in s.checks), records))
  {
    if records != [] {
      var n := |records| - 1;
      var taken := iset id | id in s.checks;
      var t := ReadRecords(suite, s, records[..n], success);
      RecordsIff(suite, s, records[..n], success, p);
      var own := RecordStep(suite, s, records, success);
      RecordsAppend(suite, taken, records);
      RecordsShow(suite, s, records[..n], success);
      LastRepeatsIff(suite, s, t, taken, records, n, success, own);
      hide LastRepeats, ReadRecords, GoodRecord, IsRecordOf, SomeBadRecord, SomeRepeats, RecordRepeats, AddsBucket;
      hide IsOwn;
    }
  }

  /** The last record repeats an identity exactly if that has been read. */
  lemma LastRepeatsIff(
      suite: Suite, s: Scan, t: Scan, taken: iset<Identity>, records: seq<Value>, n: nat, success: bool,
      own: Identity)
    requires |records| == n + 1 && AddsBucket(suite, s, t, records[..n], success)
    requires taken == iset id | id in s.checks
    ensures IsOwn(suite, records[n], own) ==> (LastRepeats(suite, taken, records, n) <==> own in t.checks)
    ensures !GoodRecord(suite, records[n]) ==> !LastRepeats(suite, taken, records, n)
  {
    hide RecordedIn;
    if IsOwn(suite, records[n], own) {
      hide IsRecordOf;
      assert IsRecordOf(suite, records[n], own);
      assert own in t.checks <==> own in s.checks || RecordedIn(suite, records[..n], own) by {
        assert own in t.checks ==> Has(t.checks, own, t.checks[own]);
        assert own in s.checks ==> Has(s.checks, own, s.checks[own]);
        assert Has(t.checks, own, success) ==> own in t.checks;
        if own in s.checks {
          assert Has(t.checks, own, s.checks[own]);
        }
      }
      assert RecordRepeats(suite, taken, records, n, own) <==> own in t.checks;
    }
  }

  lemma BucketIff(suite: Suite, s: Scan, v: Value, success: bool, p: Problem)
    ensures p in ReadBucket(suite, s, v, success).problems
       <==> p in s.problems || BucketFault(suite, (iset id | id in s.checks), v, success, p)
  {
    hide ReadRecords, GoodRecord, RecordRepeats;
    if v.Arr? {
      RecordsIff(suite, s, v.items, success, p);
    }
  }

  /** The problems of the two buckets, read one after the other. */
  lemma BucketsIff(suite: Suite, f: Fields, u: Scan, p: Problem)
    requires u.checks == map[]
    ensures
      var r := ReadBucket(suite, ReadBucket(suite, u, BucketOf(f, true), true), BucketOf(f, false), false);
      p in r.problems
      <==> p in u.problems || BucketFault(suite, iset{}, BucketOf(f, true), true, p)
           || BucketFault(suite, (iset id | BucketShows(suite, BucketOf(f, true), id)), BucketOf(f, false), false, p)
  {
    hide ReadBucket, BucketShows, BucketFault, BucketOf;
    var passing := ReadBucket(suite, u, BucketOf(f, true), true);
    BucketIff(suite, u, BucketOf(f, true), true, p);
    BucketIff(suite, passing, BucketOf(f, false), false, p);
    BucketAdds(suite, u, BucketOf(f, true), true);
    assert (iset id | id in u.checks) == iset{};
    forall id ensures id in passing.checks <==> BucketShows(suite, BucketOf(f, true), id) {
      assert id in passing.checks ==> Has(passing.checks, id, passing.checks[id]);
      assert Has(passing.checks, id, true) ==> id in passing.checks;
    }
    assert (iset id | id in passing.checks) == (iset id | BucketShows(suite, BucketOf(f, true), id));
  }

  /** What is noted before the buckets are read. */
  function BeforeBuckets(suite: Suite, f: Fields): Scan {
    var problems := HeaderProblems(suite, f) + Note(Get(f, BaselineKind) != Str(COMPACT_KIND), UnsupportedBaseline);
    var s := Scan(problems, {}, map[]);
    var list := Get(f, RequiredCases);
    var t := if list.Arr? then ReadRequiredCases(s, list.items) else With(s, NoRequiredCases);
    if Get(f, ChecksKey).Obj? then t else With(t, NoIdentities)
  }

  lemma BeforeBucketsIff(suite: Suite, f: Fields, p: Problem)
    ensures BeforeBuckets(suite, f).checks == map[]
    ensures p in BeforeBuckets(suite, f).problems
       <==> HeaderFault(suite, f, p)
            || (p == UnsupportedBaseline && Get(f, BaselineKind) != Str("mcp-review-regression-baseline-v1"))
            || (if Get(f, RequiredCases).Arr? then RequiredFault(Get(f, RequiredCases).items, p)
                else p == NoRequiredCases)
            || (p == NoIdentities && !Get(f, ChecksKey).Obj?)
  {
    HeaderIff(suite, f, p);
    NoteHas(Get(f, BaselineKind) != Str(COMPACT_KIND), UnsupportedBaseline, p);
    var problems := HeaderProblems(suite, f) + Note(Get(f, BaselineKind) != Str(COMPACT_KIND), UnsupportedBaseline);
    var s, list := Scan(problems, {}, map[]), Get(f, RequiredCases);
    if list.Arr? {
      RequiredIff(s, list.items, p);
      RequiredListed(s, list.items);
    }
    hide HeaderProblems, HeaderFault, Note, ReadRequiredCases, NamedIn, RequiredFault;
  }

  lemma CompactIff(suite: Suite, f: Fields, p: Problem)
    requires IsCompact(f)
    ensures p in ReadCompact(suite, f).problems <==> HeaderFault(suite, f, p) || FormFault(suite, f, p)
  {
    BeforeBucketsIff(suite, f, p);
    var u := BeforeBuckets(suite, f);
    assert ReadCompact(suite, f)
      == ReadBucket(suite, ReadBucket(suite, u, BucketOf(f, true), true), BucketOf(f, false), false) by
    {
      hide HeaderProblems, Note, ReadRequiredCases, ReadBucket;
    }
    hide ReadCompact, BeforeBuckets, HeaderFault, RequiredFault, BucketFault, BucketShows, ReadBucket, BucketOf;
    BucketsIff(suite, f, u, p);
  }

  lemma FullIff(suite: Suite, f: Fields, p: Problem)
    requires !IsCompact(f)
    ensures p in ReadFull(suite, f).problems <==> HeaderFault(suite, f, p) || FormFault(suite, f, p)
  {
    HeaderIff(suite, f, p);
    var s := Scan(HeaderProblems(suite, f), {}, map[]);
    var list := Get(f, Cases);
    CasesIff(suite, if list.Arr? then s else With(s, NoCases), if list.Arr? then list.items else [], p);
    assert !SomeCaseFault(suite, [], p);
    hide HeaderProblems, HeaderFault, ReadCases, SomeCaseFault;
  }

  // ---------------------------------------------------------------- the report as a whole

  lemma CaseProblemsHas(cases: seq<Case>, missing: bool, p: Problem)
    ensures p in CaseProblems(cases, missing)
       <==> if missing then p.MissingCase? && p.c in cases else p.UnexpectedCase? && p.c in cases
  {
    if (p.MissingCase? || p.UnexpectedCase?) && p.c in cases {
      var i :| 0 <= i < |cases| && cases[i] == p.c;
      assert CaseProblems(cases, missing)[i] == if missing then MissingCase(p.c) else UnexpectedCase(p.c);
    }
  }

  /** What has been read is what a report amounts to, and nothing else is. */
  lemma ScannedAmounts(suite: Suite, f: Fields)
    ensures Amounts(suite, f, Scanned(suite, f).observed, Scanned(suite, f).checks)
    ensures forall cases, checks | Amounts(suite, f, cases, checks) ::
      cases == Scanned(suite, f).observed && checks == Scanned(suite, f).checks
  {
    AllShown(suite, f);
    hide Scanned, Lists, Shows;
    var r := Scanned(suite, f);
    forall cases, checks | Amounts(suite, f, cases, checks) ensures cases == r.observed && checks == r.checks {
      assert forall c :: c in cases <==> c in r.observed;
      SameChecks(checks, r.checks);
    }
  }

  lemma SameChecks(a: Checks, b: Checks)
    requires forall id, result :: Has(a, id, result) <==> Has(b, id, result)
    ensures a == b
  {
    forall id ensures id in a <==> id in b {
      assert id in a ==> Has(a, id, a[id]);
      assert id in b ==> Has(b, id, b[id]);
      assert id in a ==> Has(b, id, a[id]);
      assert id in b ==> Has(a, id, b[id]);
    }
    forall id | id in a ensures a[id] == b[id] {
      assert Has(a, id, a[id]);
    }
  }

  lemma AllPassed(suite: Suite, f: Fields)
    ensures |Scanned(suite, f).checks| - |PassedChecks(Scanned(suite, f).checks)| == 0
       <==> forall id :: !Shows(suite, f, id, false)
  {
    AllShown(suite, f);
    hide Scanned, Shows, Lists;
    var checks := Scanned(suite, f).checks;
    FailedCount(checks);
    var failed := set id | id in checks && !checks[id];
    if |failed| == 0 {
      forall id ensures !Shows(suite, f, id, false) {
        assert id !in failed;
        assert !Has(checks, id, false);
      }
    } else {
      var id :| id in failed;
      assert Has(checks, id, false);
    }
  }

  lemma SortedCase(suite: Suite, f: Fields, c: Case)
    requires Sorts(suite)
    ensures
      var observed := Scanned(suite, f).observed;
      (c in suite.sortedCases(suite.cases - observed) <==> c in suite.cases && !Lists(suite, f, c))
      && (c in suite.sortedCases(observed - suite.cases) <==> Lists(suite, f, c) && c !in suite.cases)
  {
    AllShown(suite, f);
    hide Scanned, Lists, Shows;
  }

  lemma TotalsFault(suite: Suite, f: Fields)
    ensures
      var s := Scanned(suite, f);
      AgreesWithTotals(Get(f, Summary), s.observed, s.checks) <==> !FinalFault(suite, f, InconsistentTotals)
  {
    var s := Scanned(suite, f);
    ScannedAmounts(suite, f);
    TotalsIff(Get(f, Summary), s.observed, s.checks);
    hide Scanned, AgreesWithTotals, TotalsAgree, Amounts;
  }

  lemma SuccessFault(suite: Suite, f: Fields)
    ensures
      var s := Scanned(suite, f);
      (!IsCompact(f) && Get(f, Success) != Bool(s.observed != {} && |s.checks| - |PassedChecks(s.checks)| == 0))
      <==> FinalFault(suite, f, InconsistentSuccess)
  {
    AllShown(suite, f);
    AllPassed(suite, f);
    hide Scanned, Shows, Lists;
    var s := Scanned(suite, f);
    if c :| c in s.observed {
      assert Lists(suite, f, c);
    }
    if c :| Lists(suite, f, c) {
      assert c in s.observed;
    }
  }

  lemma FinalIff(suite: Suite, f: Fields, p: Problem)
    requires Sorts(suite)
    ensures p in FinalProblems(suite, f, Scanned(suite, f)) <==> FinalFault(suite, f, p)
  {
    hide Scanned, Shows, Lists, CaseProblems, Note, AgreesWithTotals, Sorts, Amounts, TotalsAgree, PassedChecks;
    var s := Scanned(suite, f);
    var missing, extra := suite.sortedCases(suite.cases - s.observed), suite.sortedCases(s.observed - suite.cases);
    var success := s.observed != {} && |s.checks| - |PassedChecks(s.checks)| == 0;
    var totals, overall := !AgreesWithTotals(Get(f, Summary), s.observed, s.checks),
                           !IsCompact(f) && Get(f, Success) != Bool(success);
    InOneOf(p, CaseProblems(missing, true), CaseProblems(extra, false), Note(totals, InconsistentTotals),
            Note(overall, InconsistentSuccess));
    CaseProblemsHas(missing, true, p);
    CaseProblemsHas(extra, false, p);
    NoteHas(totals, InconsistentTotals, p);
    NoteHas(overall, InconsistentSuccess, p);
    match p {
      case MissingCase(c) => SortedCase(suite, f, c);
      case UnexpectedCase(c) => SortedCase(suite, f, c);
      case InconsistentTotals => TotalsFault(suite, f);
      case InconsistentSuccess => SuccessFault(suite, f);
      case _ =>
    }
  }

  lemma InOneOf(p: Problem, a: seq<Problem>, b: seq<Problem>, c: seq<Problem>, d: seq<Problem>)
    ensures p in a + b + c + d <==> p in a || p in b || p in c || p in d
  {
  }

  /** A report is noted for exactly its faults. */
  lemma ProblemIff(suite: Suite, f: Fields, p: Problem)
    requires Sorts(suite)
    ensures p in Problems(suite, f) <==> Faulty(suite, f, p)
  {
    FinalIff(suite, f, p);
    hide FinalProblems, FinalFault, FormFault, HeaderFault, ReadFull, ReadCompact;
    if IsCompact(f) {
      CompactIff(suite, f, p);
    } else {
      FullIff(suite, f, p);
    }
  }

  lemma LabelledHas(side: Side, problems: seq<Problem>, c: Complaint)
    ensures c in Labelled(side, problems) <==> c.side == side && c.problem in problems
  {
    if c.side == side && c.problem in problems {
      var i :| 0 <= i < |problems| && problems[i] == c.problem;
      assert Labelled(side, problems)[i] == c;
    }
  }

  /** For any two reports, an error is given exactly if the report it is about has that fault. */
  lemma ErrorsIff(suite: Suite, candidate: Fields, baseline: Fields, c: Complaint)
    requires Sorts(suite)
    ensures c in Gate(suite, candidate, baseline).errors
       <==> Faulty(suite, if c.side == Candidate then candidate else baseline, c.problem)
  {
    hide Problems, Faulty, Scanned, Labelled, Sorts;
    LabelledHas(Baseline, Problems(suite, baseline), c);
    LabelledHas(Candidate, Problems(suite, candidate), c);
    ProblemIff(suite, baseline, c.problem);
    ProblemIff(suite, candidate, c.problem);
    assert c.side.Baseline? || c.side.Candidate?;
  }
}
