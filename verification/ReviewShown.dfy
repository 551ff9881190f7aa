/**
 What any review report shows (scripts/mcp_conformance/review_regressions.py), also one that is
 partly malformed: of several cases or checks of the same name the first well-formed one
 counts. The four lists of the gate are about these.
 */
module ReviewShown {
  import opened JsonValue
  import opened Listing
  import opened ReviewReport
  import opened ReviewCompaction
  import opened ReviewClean
  import opened ReviewVerdict

  // ---------------------------------------------------------------- the checks of a case

  /** A check of this name, under the review prefix, with this result. */
  predicate Reports(v: Value, name: string, result: bool) {
    Says(v, name, result) && "review/" <= name
  }

  predicate HasName(raw: seq<Value>, name: string) {
    exists j :: 0 <= j < |raw| && (Reports(raw[j], name, true) || Reports(raw[j], name, false))
  }

  /** The first well-formed check of the name has this result. */
  predicate RawShows(raw: seq<Value>, name: string, result: bool) {
    exists j :: 0 <= j < |raw| && Reports(raw[j], name, result) && !HasName(raw[..j], name)
  }

  /** No check of the case shows a failure. */
  ghost predicate NoFailure(raw: seq<Value>) {
    forall name :: !RawShows(raw, name, false)
  }

  lemma HasNameAppend(raw: seq<Value>, name: string)
    requires raw != []
    ensures
      var n := |raw| - 1;
      HasName(raw, name) <==> HasName(raw[..n], name) || Reports(raw[n], name, true) || Reports(raw[n], name, false)
  {
    hide Reports;
    var n := |raw| - 1;
    assert forall j | 0 <= j < n :: raw[..n][j] == raw[j];
  }

  lemma RawShowsAppend(raw: seq<Value>, name: string, result: bool)
    requires raw != []
    ensures
      var n := |raw| - 1;
      RawShows(raw, name, result)
      <==> RawShows(raw[..n], name, result) || (Reports(raw[n], name, result) && !HasName(raw[..n], name))
  {
    hide Reports, HasName;
    var n := |raw| - 1;
    assert forall j | 0 <= j < n :: raw[..n][j] == raw[j] && raw[..n][..j] == raw[..j];
  }

  /** A well-formed check reports one result under one name, any other none. */
  lemma ReportsOne(v: Value)
    ensures GoodCheck(v) ==>
      forall name, result :: Reports(v, name, result) <==> name == NameOf(v) && result == ResultOf(v)
    ensures !GoodCheck(v) ==> forall name, result :: !Reports(v, name, result)
  {
  }

  /** The check has this result. */
  predicate Has(checks: Checks, id: Identity, result: bool) {
    id in checks && checks[id] == result
  }

  /** What the checks of a case add to what has been read. */
  ghost predicate AddsRaw(s: Scan, r: Scan, c: Case, raw: seq<Value>) {
    r.observed == s.observed
    && forall id, result :: Has(r.checks, id, result)
         <==> if CaseOf(id) == c then RawShows(raw, id.checkId, result) else Has(s.checks, id, result)
  }

  lemma ChecksStep(s: Scan, c: Case, raw: seq<Value>)
    requires raw != []
    ensures
      var n := |raw| - 1;
      var ((t, was), (r, now)) := (ReadChecks(s, c, raw[..n]), ReadChecks(s, c, raw));
      if !GoodCheck(raw[n]) then r == With(t, MalformedCheck) && now == was
      else
        var id := Identity(c.0, c.1, NameOf(raw[n]));
        if id in t.checks then r == With(t, DuplicateCheck) && now == was
        else r == t.(checks := t.checks[id := ResultOf(raw[n])]) && now == (was && ResultOf(raw[n]))
  {
  }

  /** A check has been read exactly if its name has occurred. */
  lemma ReadIffNamed(s: Scan, t: Scan, c: Case, raw: seq<Value>, name: string)
    requires AddsRaw(s, t, c, raw)
    ensures Identity(c.0, c.1, name) in t.checks <==> HasName(raw, name)
  {
    NamedShows(raw, name);
    hide RawShows, HasName;
    var id := Identity(c.0, c.1, name);
    assert id in t.checks ==> Has(t.checks, id, t.checks[id]);
    assert Has(t.checks, id, true) || Has(t.checks, id, false) ==> id in t.checks;
  }

  /** A new check of the case adds itself. */
  lemma AddsOne(s: Scan, t: Scan, c: Case, raw: seq<Value>)
    requires raw != [] && AddsRaw(s, t, c, raw[..|raw| - 1]) && GoodCheck(raw[|raw| - 1])
    requires !HasName(raw[..|raw| - 1], NameOf(raw[|raw| - 1]))
    ensures
      var last := raw[|raw| - 1];
      AddsRaw(s, t.(checks := t.checks[Identity(c.0, c.1, NameOf(last)) := ResultOf(last)]), c, raw)
  {
    var n := |raw| - 1;
    var last := raw[n];
    var own := Identity(c.0, c.1, NameOf(last));
    var r := t.(checks := t.checks[own := ResultOf(last)]);
    ReportsOne(last);
    ReadIffNamed(s, t, c, raw[..n], NameOf(last));
    NamedShows(raw[..n], NameOf(last));
    hide GoodCheck, RawShows, HasName, Reports;
    forall id, result ensures Has(r.checks, id, result)
      <==> if CaseOf(id) == c then RawShows(raw, id.checkId, result) else Has(s.checks, id, result)
    {
      RawShowsAppend(raw, id.checkId, result);
      assert CaseOf(id) == c && id.checkId == NameOf(last) ==> id == own;
    }
  }

  /** A check that is not well-formed, or whose name has occurred, adds nothing. */
  lemma AddsNone(s: Scan, t: Scan, c: Case, raw: seq<Value>)
    requires raw != [] && AddsRaw(s, t, c, raw[..|raw| - 1])
    requires GoodCheck(raw[|raw| - 1]) ==> HasName(raw[..|raw| - 1], NameOf(raw[|raw| - 1]))
    ensures AddsRaw(s, t, c, raw)
    ensures NoFailure(raw) <==> NoFailure(raw[..|raw| - 1])
  {
    ReportsOne(raw[|raw| - 1]);
    hide GoodCheck, RawShows, HasName, Reports;
    var front := raw[..|raw| - 1];
    forall name, result ensures RawShows(raw, name, result) <==> RawShows(front, name, result) {
      RawShowsAppend(raw, name, result);
    }
    if NoFailure(raw) {
      forall name ensures !RawShows(front, name, false) {
        assert !RawShows(raw, name, false);
      }
    }
  }

  /** What the checks of a case show is what is read of them, and the case passes if none of it is a failure. */
  lemma {:induction false} ChecksShow(s: Scan, c: Case, raw: seq<Value>)
    requires Unread(s, c)
    ensures AddsRaw(s, ReadChecks(s, c, raw).0, c, raw)
    ensures ReadChecks(s, c, raw).1 <==> NoFailure(raw)
  {
    if raw == [] {
      assert forall name, result :: !RawShows([], name, result);
    } else {
      var n := |raw| - 1;
      ChecksShow(s, c, raw[..n]);
      ChecksStep(s, c, raw);
      hide ReadChecks, GoodCheck, NoFailure, HasName, Reports, Unread, AddsRaw;
      var t := ReadChecks(s, c, raw[..n]).0;
      if GoodCheck(raw[n]) {
        ReadIffNamed(s, t, c, raw[..n], NameOf(raw[n]));
        if !HasName(raw[..n], NameOf(raw[n])) {
          AddsOne(s, t, c, raw);
          PassesNext(raw);
        } else {
          AddsNone(s, t, c, raw);
          AddsSame(s, t, DuplicateCheck, c, raw);
        }
      } else {
        AddsNone(s, t, c, raw);
        AddsSame(s, t, MalformedCheck, c, raw);
      }
    }
  }

  lemma AddsSame(s: Scan, t: Scan, problem: Problem, c: Case, raw: seq<Value>)
    requires AddsRaw(s, t, c, raw)
    ensures AddsRaw(s, With(t, problem), c, raw)
  {
    hide RawShows;
  }

  /** With a new check no failure is shown exactly if none was and it passes. */
  lemma PassesNext(raw: seq<Value>)
    requires raw != [] && GoodCheck(raw[|raw| - 1]) && !HasName(raw[..|raw| - 1], NameOf(raw[|raw| - 1]))
    ensures NoFailure(raw) <==> NoFailure(raw[..|raw| - 1]) && ResultOf(raw[|raw| - 1])
  {
    var n := |raw| - 1;
    ReportsOne(raw[n]);
    hide GoodCheck, RawShows, HasName, Reports;
    forall name ensures RawShows(raw, name, false)
      <==> RawShows(raw[..n], name, false) || (Reports(raw[n], name, false) && !HasName(raw[..n], name))
    {
      RawShowsAppend(raw, name, false);
    }
  }

  lemma {:induction false} NamedShows(raw: seq<Value>, name: string)
    ensures HasName(raw, name) <==> RawShows(raw, name, true) || RawShows(raw, name, false)
  {
    if raw != [] {
      hide Reports, HasName, RawShows;
      NamedShows(raw[..|raw| - 1], name);
      HasNameAppend(raw, name);
      RawShowsAppend(raw, name, true);
      RawShowsAppend(raw, name, false);
    }
  }

  // ---------------------------------------------------------------- the cases of a full report

  /** The case shows the results of its checks. */
  predicate CaseShows(v: Value, name: string, result: bool) {
    v.Obj? && Get(v.fields, ChecksKey).Arr? && RawShows(Get(v.fields, ChecksKey).items, name, result)
  }

  /** Of several cases of the same version and transport only the first is read. */
  predicate ListShows(suite: Suite, list: seq<Value>, id: Identity, result: bool) {
    CaseOf(id) in suite.cases
    && exists i :: 0 <= i < |list| && Names(list[i], CaseOf(id)) && !NamedIn(list[..i], CaseOf(id))
         && CaseShows(list[i], id.checkId, result)
  }

  lemma ListShowsAppend(suite: Suite, list: seq<Value>, id: Identity, result: bool)
    requires list != []
    ensures
      var n := |list| - 1;
      ListShows(suite, list, id, result)
      <==> ListShows(suite, list[..n], id, result)
           || (CaseOf(id) in suite.cases && Names(list[n], CaseOf(id)) && !NamedIn(list[..n], CaseOf(id))
               && CaseShows(list[n], id.checkId, result))
  {
    hide Names, NamedIn, CaseShows;
    var n := |list| - 1;
    assert forall i | 0 <= i < n :: list[..n][i] == list[i] && list[..n][..i] == list[..i];
  }

  /** What has been read of a list of cases. */
  ghost predicate ReadOf(suite: Suite, list: seq<Value>, r: Scan) {
    (forall c :: c in r.observed <==> c in suite.cases && NamedIn(list, c))
    && forall id, result :: Has(r.checks, id, result) <==> ListShows(suite, list, id, result)
  }

  /** A case that is not read leaves what has been read. */
  lemma SkippedCase(suite: Suite, list: seq<Value>, t: Scan, r: Scan)
    requires list != [] && ReadOf(suite, list[..|list| - 1], t)
    requires r.observed == t.observed && r.checks == t.checks
    requires forall c | c in suite.cases && Names(list[|list| - 1], c) :: NamedIn(list[..|list| - 1], c)
    ensures ReadOf(suite, list, r)
  {
    var n := |list| - 1;
    hide Names, NamedIn, CaseShows, ListShows;
    forall c ensures c in r.observed <==> c in suite.cases && NamedIn(list, c) {
      NamedAppend(list, c);
    }
    forall id, result ensures Has(r.checks, id, result) <==> ListShows(suite, list, id, result) {
      ListShowsAppend(suite, list, id, result);
    }
  }

  /** What a case adds to what has been read. */
  ghost predicate AddsCase(t: Scan, r: Scan, c: Case, v: Value) {
    r.observed == t.observed + {c}
    && forall id, result :: Has(r.checks, id, result)
         <==> if CaseOf(id) == c then CaseShows(v, id.checkId, result) else Has(t.checks, id, result)
  }

  /** A case that is read adds what its checks show. */
  lemma ReadCaseAdds(suite: Suite, list: seq<Value>, t: Scan, c: Case, r: Scan)
    requires list != [] && ReadOf(suite, list[..|list| - 1], t) && c in suite.cases && Names(list[|list| - 1], c)
    requires !NamedIn(list[..|list| - 1], c)
    requires AddsCase(t, r, c, list[|list| - 1])
    ensures ReadOf(suite, list, r)
  {
    var n := |list| - 1;
    assert forall d | Names(list[n], d) :: d == c;
    forall id, result | CaseOf(id) == c ensures !ListShows(suite, list[..n], id, result) {
      ShownIsNamed(suite, list[..n], id, result);
    }
    hide Names, NamedIn, CaseShows, ListShows;
    forall d ensures d in r.observed <==> d in suite.cases && NamedIn(list, d) {
      NamedAppend(list, d);
    }
    forall id, result ensures Has(r.checks, id, result) <==> ListShows(suite, list, id, result) {
      ListShowsAppend(suite, list, id, result);
    }
  }

  lemma ShownIsNamed(suite: Suite, list: seq<Value>, id: Identity, result: bool)
    ensures ListShows(suite, list, id, result) ==> NamedIn(list, CaseOf(id))
  {
    hide Names, CaseShows;
  }

  lemma NewIsUnread(suite: Suite, list: seq<Value>, t: Scan, c: Case)
    requires ReadOf(suite, list, t) && !NamedIn(list, c)
    ensures Unread(t, c)
  {
    hide NamedIn, ListShows;
    forall id | id in t.checks ensures CaseOf(id) != c {
      assert Has(t.checks, id, t.checks[id]);
      ShownIsNamed(suite, list, id, t.checks[id]);
    }
  }

  /** One more case, after what has been read. */
  lemma CaseNext(suite: Suite, list: seq<Value>, t: Scan)
    requires list != [] && ReadOf(suite, list[..|list| - 1], t)
    ensures ReadOf(suite, list, ReadCase(suite, t, list[|list| - 1]))
  {
    var v, r, front := list[|list| - 1], ReadCase(suite, t, list[|list| - 1]), list[..|list| - 1];
    if !NamesCase(v) || CaseIn(v) !in suite.cases || NamedIn(front, CaseIn(v)) {
      if NamesCase(v) && CaseIn(v) in suite.cases {
        assert CaseIn(v) in t.observed;
      }
      assert forall c | Names(v, c) :: NamesCase(v) && c == CaseIn(v);
      hide NamedIn, ListShows, ReadChecks;
      SkippedCase(suite, list, t, r);
    } else {
      var c := CaseIn(v);
      NewIsUnread(suite, front, t, c);
      hide NamedIn, ListShows;
      NewCase(suite, t, v);
      ReadCaseAdds(suite, list, t, c, r);
    }
  }

  lemma NewCase(suite: Suite, t: Scan, v: Value)
    requires NamesCase(v) && CaseIn(v) in suite.cases && CaseIn(v) !in t.observed && Unread(t, CaseIn(v))
    ensures
      var r, c := ReadCase(suite, t, v), CaseIn(v);
      AddsCase(t, r, c, v)
  {
    var c := CaseIn(v);
    var s := t.(observed := t.observed + {c});
    assert Unread(s, c);
    var raw := Get(v.fields, ChecksKey);
    if raw.Arr? {
      ChecksShow(s, c, raw.items);
    }
    NothingRaw();
    hide RawShows, ReadChecks;
  }

  lemma NothingRaw()
    ensures forall name, result :: !RawShows([], name, result)
  {
  }

  lemma {:induction false} CasesShow(suite: Suite, s: Scan, list: seq<Value>)
    requires s.observed == {} && s.checks == map[]
    ensures ReadOf(suite, list, ReadCases(suite, s, list))
  {
    if list != [] {
      CasesShow(suite, s, list[..|list| - 1]);
      CaseNext(suite, list, ReadCases(suite, s, list[..|list| - 1]));
    }
  }

  // ---------------------------------------------------------------- compact baselines

  /** The record is well-formed and spells the identity. */
  predicate IsRecordOf(suite: Suite, v: Value, id: Identity) {
    GoodRecord(suite, v) && Spells(v, id)
  }

  predicate RecordedIn(suite: Suite, records: seq<Value>, id: Identity) {
    exists i :: 0 <= i < |records| && IsRecordOf(suite, records[i], id)
  }

  lemma RecordedAppend(suite: Suite, records: seq<Value>, id: Identity)
    requires records != []
    ensures
      var n := |records| - 1;
      RecordedIn(suite, records, id) <==> RecordedIn(suite, records[..n], id) || IsRecordOf(suite, records[n], id)
  {
    hide IsRecordOf;
    var n := |records| - 1;
    assert forall i | 0 <= i < n :: records[..n][i] == records[i];
  }

  /** What a bucket adds to what has been read: the identities its well-formed records spell, if they are new. */
  ghost predicate AddsBucket(suite: Suite, s: Scan, r: Scan, records: seq<Value>, success: bool) {
    r.observed == s.observed
    && forall id, result :: Has(r.checks, id, result)
         <==> Has(s.checks, id, result)
              || (id !in s.checks && result == success && RecordedIn(suite, records, id))
  }

  lemma RecordStep(suite: Suite, s: Scan, records: seq<Value>, success: bool) returns (own: Identity)
    requires records != []
    ensures
      var n := |records| - 1;
      var t, r := ReadRecords(suite, s, records[..n], success), ReadRecords(suite, s, records, success);
      (!GoodRecord(suite, records[n]) ==>
         r == With(t, MalformedCheck) && forall id :: !IsRecordOf(suite, records[n], id))
      && (GoodRecord(suite, records[n]) ==> TakesIn(suite, t, r, records[n], own, success))
  {
    var last := records[|records| - 1];
    forall id
      ensures (ReadRecord(suite, last) == Some(id) <==> GoodRecord(suite, last) && Spells(last, id))
        && (ReadRecord(suite, last).None? <==> !GoodRecord(suite, last))
    {
      RecordIff(suite, last, id);
    }
    hide ReadRecord, GoodRecord, Spells;
    own := if GoodRecord(suite, last) then ReadRecord(suite, last).value else Identity("", "", "");
  }

  /** The record's identity is added, or noted as a duplicate. */
  ghost predicate TakesIn(suite: Suite, t: Scan, r: Scan, v: Value, own: Identity, success: bool) {
    IsOwn(suite, v, own)
    && r == if own in t.checks then With(t, DuplicateCheck) else t.(checks := t.checks[own := success])
  }

  /** The identity is the one the record is well-formed for. */
  ghost predicate IsOwn(suite: Suite, v: Value, own: Identity) {
    forall id :: IsRecordOf(suite, v, id) <==> id == own
  }

  lemma {:induction false} RecordsShow(suite: Suite, s: Scan, records: seq<Value>, success: bool)
    ensures AddsBucket(suite, s, ReadRecords(suite, s, records, success), records, success)
  {
    if records != [] {
      var n := |records| - 1;
      var t, r := ReadRecords(suite, s, records[..n], success), ReadRecords(suite, s, records, success);
      RecordsShow(suite, s, records[..n], success);
      var own := RecordStep(suite, s, records, success);
      forall id ensures RecordedIn(suite, records, id)
        <==> RecordedIn(suite, records[..n], id) || IsRecordOf(suite, records[n], id)
      {
        RecordedAppend(suite, records, id);
      }
      hide ReadRecords, GoodRecord, IsRecordOf, RecordedIn;
      if GoodRecord(suite, records[n]) {
        BucketNext(suite, s, t, r, records, success, own);
      }
    }
  }

  lemma BucketNext(
      suite: Suite, s: Scan, t: Scan, r: Scan, records: seq<Value>, success: bool, own: Identity)
    requires records != [] && AddsBucket(suite, s, t, records[..|records| - 1], success)
    requires TakesIn(suite, t, r, records[|records| - 1], own, success)
    ensures AddsBucket(suite, s, r, records, success)
  {
    var n := |records| - 1;
    hide IsRecordOf, RecordedIn;
    assert own in t.checks <==> own in s.checks || RecordedIn(suite, records[..n], own) by {
      assert own in t.checks ==> Has(t.checks, own, t.checks[own]);
      assert own in s.checks ==> Has(s.checks, own, s.checks[own]);
      assert Has(t.checks, own, success) ==> own in t.checks;
    }
    forall id, result ensures Has(r.checks, id, result)
      <==> Has(s.checks, id, result)
           || (id !in s.checks && result == success && RecordedIn(suite, records, id))
    {
      RecordedAppend(suite, records, id);
      assert IsRecordOf(suite, records[n], id) <==> id == own;
      assert Has(t.checks, id, result)
        <==> (Has(s.checks, id, result)
              || (id !in s.checks && result == success && RecordedIn(suite, records[..n], id)));
    }
  }

  /** A bucket that is a list has well-formed records that spell the identity. */
  predicate BucketShows(suite: Suite, v: Value, id: Identity) {
    v.Arr? && RecordedIn(suite, v.items, id)
  }

  lemma BucketAdds(suite: Suite, s: Scan, v: Value, success: bool)
    ensures
      var r := ReadBucket(suite, s, v, success);
      r.observed == s.observed
      && forall id, result :: Has(r.checks, id, result)
           <==> Has(s.checks, id, result) || (id !in s.checks && result == success && BucketShows(suite, v, id))
  {
    hide ReadRecords, RecordedIn;
    if v.Arr? {
      RecordsShow(suite, s, v.items, success);
    }
  }

  // ---------------------------------------------------------------- any report

  /** What a report of either form shows; in a compact baseline a passing check is not also a failing one. */
  predicate Shows(suite: Suite, f: Fields, id: Identity, result: bool) {
    if Get(f, BaselineKind) == Null then Get(f, Cases).Arr? && ListShows(suite, Get(f, Cases).items, id, result)
    else BucketShows(suite, BucketOf(f, result), id) && (!result ==> !BucketShows(suite, BucketOf(f, true), id))
  }

  /** The cases a report has: the required ones with a case, or the ones a compact baseline lists. */
  predicate Lists(suite: Suite, f: Fields, c: Case) {
    if Get(f, BaselineKind) == Null then c in suite.cases && Get(f, Cases).Arr? && NamedIn(Get(f, Cases).items, c)
    else Get(f, RequiredCases).Arr? && NamedIn(Get(f, RequiredCases).items, c)
  }

  lemma {:induction false} RequiredListed(s: Scan, list: seq<Value>)
    requires s.observed == {}
    ensures
      var r := ReadRequiredCases(s, list);
      r.checks == s.checks && forall c :: c in r.observed <==> NamedIn(list, c)
  {
    if list != [] {
      var n := |list| - 1;
      RequiredListed(s, list[..n]);
      RequiredStep(s, list);
      hide ReadRequiredCases, NamedIn;
      forall c ensures NamedIn(list, c) <==> NamedIn(list[..n], c) || Names(list[n], c) {
        NamedAppend(list, c);
      }
      assert forall c :: Names(list[n], c) <==> NamesCase(list[n]) && c == CaseIn(list[n]);
    }
  }

  lemma NothingNamed()
    ensures forall c :: !NamedIn([], c)
    ensures forall suite, id, result :: !ListShows(suite, [], id, result)
  {
  }

  lemma CompactShown(suite: Suite, f: Fields)
    requires IsCompact(f)
    ensures
      var r := ReadCompact(suite, f);
      (forall c :: c in r.observed <==> Lists(suite, f, c))
      && forall id, result :: Has(r.checks, id, result) <==> Shows(suite, f, id, result)
  {
    var problems := HeaderProblems(suite, f) + Note(Get(f, BaselineKind) != Str(COMPACT_KIND), UnsupportedBaseline);
    var s := Scan(problems, {}, map[]);
    var list, checks := Get(f, RequiredCases), Get(f, ChecksKey);
    var t := if list.Arr? then ReadRequiredCases(s, list.items) else With(s, NoRequiredCases);
    if list.Arr? {
      RequiredListed(s, list.items);
    }
    var u := if checks.Obj? then t else With(t, NoIdentities);
    var buckets := if checks.Obj? then checks.fields else map[];
    var passing := ReadBucket(suite, u, Get(buckets, Passing), true);
    BucketAdds(suite, u, Get(buckets, Passing), true);
    BucketAdds(suite, passing, Get(buckets, Failing), false);
    assert Get(buckets, Passing) == BucketOf(f, true) && Get(buckets, Failing) == BucketOf(f, false);
    hide HeaderProblems, ReadRequiredCases, ReadBucket, BucketShows, NamedIn, BucketOf;
    assert forall id :: id !in u.checks;
    forall id ensures id in passing.checks <==> BucketShows(suite, BucketOf(f, true), id) {
      assert id in passing.checks ==> Has(passing.checks, id, passing.checks[id]);
      assert Has(passing.checks, id, true) ==> id in passing.checks;
    }
  }

  /** What is read of any report is exactly what it shows. */
  lemma ShownIff(suite: Suite, f: Fields, id: Identity, result: bool)
    ensures Has(ChecksOf(suite, f), id, result) <==> Shows(suite, f, id, result)
  {
    AllShown(suite, f);
  }

  lemma AllShown(suite: Suite, f: Fields)
    ensures
      var r := Scanned(suite, f);
      (forall c :: c in r.observed <==> Lists(suite, f, c))
      && forall id, result :: Has(r.checks, id, result) <==> Shows(suite, f, id, result)
  {
    if IsCompact(f) {
      CompactShown(suite, f);
      hide ReadCompact, Lists, Shows;
    } else {
      var s := Scan(HeaderProblems(suite, f), {}, map[]);
      var list := Get(f, Cases);
      CasesShow(suite, if list.Arr? then s else With(s, NoCases), if list.Arr? then list.items else []);
      NothingNamed();
      hide HeaderProblems, ReadCases, NamedIn, ListShows;
    }
  }

  /** A usable report shows what it states. */
  lemma UsableShows(suite: Suite, f: Fields, id: Identity, result: bool)
    requires Sorts(suite) && Usable(suite, f)
    ensures Shows(suite, f, id, result) <==> States(f, id, result)
  {
    ReviewVerdict.UsableIff(suite, f);
    ShownIff(suite, f, id, result);
    hide Usable, Shows, States, ChecksOf;
  }

  // ---------------------------------------------------------------- the four lists

  /** The list holds each of its identities once, in order. */
  ghost predicate InSortedOrder(suite: Suite, ids: seq<Identity>) {
    ids == suite.sorted(set id | id in ids)
  }

  lemma SortedInOrder(suite: Suite, s: set<Identity>)
    requires Sorts(suite)
    ensures InSortedOrder(suite, suite.sorted(s)) && forall id :: id in suite.sorted(s) <==> id in s
  {
    assert (set id | id in suite.sorted(s)) == s;
  }

  /** For any two reports, however much is wrong with them: what is listed. */
  lemma ListsIff(suite: Suite, candidate: Fields, baseline: Fields, id: Identity)
    requires Sorts(suite)
    ensures
      var r := Gate(suite, candidate, baseline);
      (id in r.newFailures <==> Shows(suite, candidate, id, false) && !Shows(suite, baseline, id, false))
      && (id in r.knownFailures <==> Shows(suite, candidate, id, false) && Shows(suite, baseline, id, false))
      && (id in r.missingChecks
          <==> (Shows(suite, baseline, id, true) || Shows(suite, baseline, id, false))
               && !Shows(suite, candidate, id, true) && !Shows(suite, candidate, id, false))
      && (id in r.fixedChecks <==> Shows(suite, baseline, id, false) && Shows(suite, candidate, id, true))
    ensures
      var r := Gate(suite, candidate, baseline);
      InSortedOrder(suite, r.newFailures) && InSortedOrder(suite, r.knownFailures)
      && InSortedOrder(suite, r.missingChecks) && InSortedOrder(suite, r.fixedChecks)
  {
    var now, before := ChecksOf(suite, candidate), ChecksOf(suite, baseline);
    SortedInOrder(suite, NewFailures(now, before));
    SortedInOrder(suite, KnownFailures(now, before));
    SortedInOrder(suite, before.Keys - now.Keys);
    SortedInOrder(suite, FixedChecks(now, before));
    ShownIff(suite, candidate, id, true);
    ShownIff(suite, candidate, id, false);
    ShownIff(suite, baseline, id, true);
    ShownIff(suite, baseline, id, false);
    hide Shows, Scanned, Sorts, InSortedOrder, Problems;
  }

  // ---------------------------------------------------------------- the compact document

  /** The records spell these identities one by one and hold nothing else. */
  predicate Spelling(items: seq<Value>, ids: seq<Identity>) {
    |ids| == |items|
    && forall i | 0 <= i < |ids| :: Spells(items[i], ids[i]) && items[i].fields.Keys == {Mode, Transport, CheckId}
  }

  /** The records spell all the checks of one result, in order. */
  ghost predicate ListsAll(suite: Suite, f: Fields, v: Value, result: bool) {
    v.Arr? && exists ids :: Spelling(v.items, ids) && InSortedOrder(suite, ids) && StatesExactly(f, ids, result)
  }

  ghost predicate StatesExactly(f: Fields, ids: seq<Identity>, result: bool) {
    forall id :: id in ids <==> States(f, id, result)
  }

  /** The entries name all the required cases, in order, and hold nothing else. */
  predicate ListsCases(suite: Suite, v: Value) {
    v.Arr? &&
    var cases := suite.sortedCases(suite.cases);
    |v.items| == |cases|
    && forall i | 0 <= i < |cases| :: Names(v.items[i], cases[i]) && v.items[i].fields.Keys == {Mode, Transport}
  }

  /** The totals of a report, and nothing else of its summary. */
  predicate KeepsTotals(f: Fields, v: Value) {
    v.Obj? && Get(f, Summary).Obj? &&
    var was, now := Get(f, Summary).fields, v.fields;
    now.Keys == {Passed, Failed, Total, CasesPassed, CasesTotal}
    && now[Passed] == Get(was, Passed) && now[Failed] == Get(was, Failed) && now[Total] == Get(was, Total)
    && now[CasesPassed] == Get(was, CasesPassed) && now[CasesTotal] == Get(was, CasesTotal)
  }

  /** The compact baseline of a report, field by field. */
  ghost predicate IsCompactOf(suite: Suite, f: Fields, c: Fields) {
    c.Keys == {BaselineKind, SchemaVersion, Reviewer, RequiredModes, RequiredCases, Summary, ChecksKey}
    && c[BaselineKind] == Str("mcp-review-regression-baseline-v1") && c[SchemaVersion] == Int(1)
    && c[Reviewer] == Str(suite.reviewer) && c[RequiredModes] == Texts(suite.modes)
    && ListsCases(suite, c[RequiredCases]) && KeepsTotals(f, c[Summary])
    && c[ChecksKey].Obj? && c[ChecksKey].fields.Keys == {Passing, Failing}
    && ListsAll(suite, f, c[ChecksKey].fields[Passing], true)
    && ListsAll(suite, f, c[ChecksKey].fields[Failing], false)
  }

  lemma RecordsSpell(ids: seq<Identity>)
    ensures Spelling(Records(ids), ids)
  {
  }

  lemma RecordsListAll(suite: Suite, f: Fields, s: set<Identity>, result: bool)
    requires Sorts(suite) && Usable(suite, f) && forall id :: id in s <==> Has(ChecksOf(suite, f), id, result)
    ensures ListsAll(suite, f, Arr(Records(suite.sorted(s))), result)
  {
    var ids := suite.sorted(s);
    SortedInOrder(suite, s);
    RecordsSpell(ids);
    hide States, Shows, Spelling, InSortedOrder, Records, Usable, ChecksOf, Sorts;
    forall id ensures id in ids <==> States(f, id, result) {
      ShownIff(suite, f, id, result);
      UsableShows(suite, f, id, result);
    }
    assert StatesExactly(f, ids, result);
  }

  lemma CasesNamed(suite: Suite)
    ensures ListsCases(suite, Arr(CaseRecords(suite.sortedCases(suite.cases))))
  {
  }

  lemma ByResult(checks: Checks, id: Identity)
    ensures id in PassedChecks(checks) <==> Has(checks, id, true)
    ensures id in FailedChecks(checks) <==> Has(checks, id, false)
  {
  }

  lemma FormIs(suite: Suite, f: Fields, checks: Checks)
    requires Get(f, Summary).Obj?
    requires ListsAll(suite, f, Arr(Records(suite.sorted(PassedChecks(checks)))), true)
    requires ListsAll(suite, f, Arr(Records(suite.sorted(FailedChecks(checks)))), false)
    ensures IsCompactOf(suite, f, CompactForm(suite, Get(f, Summary).fields, checks))
  {
    CasesNamed(suite);
    hide ListsAll, Records, PassedChecks, FailedChecks, ListsCases, CaseRecords, Texts;
  }

  /** Compacting writes exactly this document. */
  lemma CompactDocument(suite: Suite, f: Fields)
    requires Sorts(suite) && Compact(suite, f).Ok?
    ensures IsCompactOf(suite, f, Compact(suite, f).value)
  {
    CompactFormStates(suite, f);
    hide Usable, States, ListsAll, Sorts, Problems, Records, PassedChecks, FailedChecks, IsCompactOf, CompactForm;
    hide Scanned, Has;
    var checks := ChecksOf(suite, f);
    forall id ensures (id in PassedChecks(checks) <==> Has(checks, id, true))
      && (id in FailedChecks(checks) <==> Has(checks, id, false))
    {
      ByResult(checks, id);
    }
    RecordsListAll(suite, f, PassedChecks(checks), true);
    RecordsListAll(suite, f, FailedChecks(checks), false);
    FormIs(suite, f, checks);
  }
}
