/**
 The loops of the review gate (scripts/mcp_conformance/review_regressions.py), proved to
 compute the readings and the verdict that the results are about.
 */
module ReviewLoops {
  import opened JsonValue
  import opened Listing
  import opened ReviewReport

  // ---------------------------------------------------------------- compact baselines

  method CollectRequiredCases(s: Scan, list: seq<Value>) returns (r: Scan)
    ensures r == ReadRequiredCases(s, list)
  {
    r := s;
    for i := 0 to |list|
      invariant r == ReadRequiredCases(s, list[..i])
    {
      assert list[..i + 1][..i] == list[..i];
      var v := list[i];
      if !v.Obj? || !Get(v.fields, Mode).Str? || !Get(v.fields, Transport).Str? {
        r := With(r, MalformedCase);
        continue;
      }
      var c := (Get(v.fields, Mode).s, Get(v.fields, Transport).s);
      if c in r.observed {
        r := With(r, DuplicateCase);
        continue;
      }
      r := r.(observed := r.observed + {c});
    }
    assert list[..|list|] == list;
  }

  method CollectRecords(suite: Suite, s: Scan, records: seq<Value>, success: bool) returns (r: Scan)
    ensures r == ReadRecords(suite, s, records, success)
  {
    hide ReadRecord;
    r := s;
    for i := 0 to |records|
      invariant r == ReadRecords(suite, s, records[..i], success)
    {
      assert records[..i + 1][..i] == records[..i];
      var id := ReadRecord(suite, records[i]);
      if id.None? {
        r := With(r, MalformedCheck);
        continue;
      }
      if id.value in r.checks {
        r := With(r, DuplicateCheck);
        continue;
      }
      r := r.(checks := r.checks[id.value := success]);
    }
    assert records[..|records|] == records;
  }

  method ReadCompactReport(suite: Suite, f: Fields) returns (s: Scan)
    ensures s == ReadCompact(suite, f)
  {
    hide HeaderProblems, ReadRecords, ReadRequiredCases;
    s := Scan(HeaderProblems(suite, f), {}, map[]);
    if Get(f, BaselineKind) != Str(COMPACT_KIND) {
      s := With(s, UnsupportedBaseline);
    }
    assert s.problems
      == HeaderProblems(suite, f) + Note(Get(f, BaselineKind) != Str(COMPACT_KIND), UnsupportedBaseline);
    var list := Get(f, RequiredCases);
    if list.Arr? {
      s := CollectRequiredCases(s, list.items);
    } else {
      s := With(s, NoRequiredCases);
    }
    var checks := Get(f, ChecksKey);
    var buckets: Fields := map[];
    if checks.Obj? {
      buckets := checks.fields;
    } else {
      s := With(s, NoIdentities);
    }
    if Get(buckets, Passing).Arr? {
      s := CollectRecords(suite, s, Get(buckets, Passing).items, true);
    } else {
      s := With(s, NoBucket(true));
    }
    if Get(buckets, Failing).Arr? {
      s := CollectRecords(suite, s, Get(buckets, Failing).items, false);
    } else {
      s := With(s, NoBucket(false));
    }
  }

  // ---------------------------------------------------------------- full reports

  method CollectChecks(s: Scan, c: Case, raw: seq<Value>) returns (r: Scan, success: bool)
    ensures (r, success) == ReadChecks(s, c, raw)
  {
    r, success := s, true;
    for i := 0 to |raw|
      invariant (r, success) == ReadChecks(s, c, raw[..i])
    {
      assert raw[..i + 1][..i] == raw[..i];
      var v := raw[i];
      if !v.Obj? || !Get(v.fields, Name).Str? || !(PREFIX <= Get(v.fields, Name).s) || !Get(v.fields, Success).Bool? {
        r := With(r, MalformedCheck);
        continue;
      }
      var id := Identity(c.0, c.1, Get(v.fields, Name).s);
      if id in r.checks {
        r := With(r, DuplicateCheck);
        continue;
      }
      r := r.(checks := r.checks[id := Get(v.fields, Success).b]);
      success := success && Get(v.fields, Success).b;
    }
    assert raw[..|raw|] == raw;
  }

  method CollectCases(suite: Suite, s: Scan, list: seq<Value>) returns (r: Scan)
    ensures r == ReadCases(suite, s, list)
  {
    hide ReadChecks;
    r := s;
    for i := 0 to |list|
      invariant r == ReadCases(suite, s, list[..i])
    {
      assert list[..i + 1][..i] == list[..i];
      var v := list[i];
      if !v.Obj? {
        r := With(r, MalformedCase);
        continue;
      }
      var mode, transport := Get(v.fields, Mode), Get(v.fields, Transport);
      if !mode.Str? || !transport.Str? || (mode.s, transport.s) !in suite.cases {
        r := With(r, UnexpectedCaseInReport);
        continue;
      }
      var c := (mode.s, transport.s);
      if c in r.observed {
        r := With(r, DuplicateCase);
        continue;
      }
      r := r.(observed := r.observed + {c});
      var raw := Get(v.fields, ChecksKey);
      if !raw.Arr? || raw.items == [] {
        r := With(r, NoChecks(c));
        continue;
      }
      var success;
      r, success := CollectChecks(r, c, raw.items);
      if Get(v.fields, Success) != Bool(success) {
        r := With(r, InconsistentCase(c));
      }
    }
    assert list[..|list|] == list;
  }

  method RequiredReviewChecks(suite: Suite, f: Fields) returns (problems: seq<Problem>, checks: Checks)
    ensures problems == Problems(suite, f) && checks == Scanned(suite, f).checks
  {
    hide HeaderProblems, ReadCompact, ReadCases, FinalProblems;
    var s;
    if IsCompact(f) {
      s := ReadCompactReport(suite, f);
    } else {
      s := Scan(HeaderProblems(suite, f), {}, map[]);
      var list := Get(f, Cases);
      if !list.Arr? {
        s := With(s, NoCases);
      }
      s := CollectCases(suite, s, if list.Arr? then list.items else []);
    }
    return s.problems + FinalProblems(suite, f, s), s.checks;
  }

  // ---------------------------------------------------------------- the gate

  lemma SortedPart(suite: Suite, all: set<Identity>, part: set<Identity>)
    requires Sorts(suite) && part <= all
    ensures Among(suite.sorted(all), part) == suite.sorted(part)
  {
    assert all * part == part;
  }

  method CompareCandidate(suite: Suite, now: Checks, before: Checks)
    returns (known: seq<Identity>, broken: seq<Identity>)
    requires Sorts(suite)
    ensures known == suite.sorted(KnownFailures(now, before)) && broken == suite.sorted(NewFailures(now, before))
  {
    known, broken := [], [];
    var ids := suite.sorted(now.Keys);
    for i := 0 to |ids|
      invariant known == Among(ids[..i], KnownFailures(now, before))
      invariant broken == Among(ids[..i], NewFailures(now, before))
    {
      var id := ids[i];
      assert id in ids;
      AmongStep(ids, i, KnownFailures(now, before));
      AmongStep(ids, i, NewFailures(now, before));
      hide Sorts, Among;
      if now[id] {
        continue;
      }
      if id in before && !before[id] {
        known := known + [id];
      } else {
        broken := broken + [id];
      }
    }
    assert ids[..|ids|] == ids;
    SortedPart(suite, now.Keys, KnownFailures(now, before));
    SortedPart(suite, now.Keys, NewFailures(now, before));
  }

  method CompareBaseline(suite: Suite, now: Checks, before: Checks)
    returns (missing: seq<Identity>, repaired: seq<Identity>)
    requires Sorts(suite)
    ensures missing == suite.sorted(before.Keys - now.Keys) && repaired == suite.sorted(FixedChecks(now, before))
  {
    missing, repaired := [], [];
    var ids := suite.sorted(before.Keys);
    for i := 0 to |ids|
      invariant missing == Among(ids[..i], before.Keys - now.Keys)
      invariant repaired == Among(ids[..i], FixedChecks(now, before))
    {
      var id := ids[i];
      assert id in ids;
      AmongStep(ids, i, before.Keys - now.Keys);
      AmongStep(ids, i, FixedChecks(now, before));
      hide Sorts, Among;
      if id !in now {
        missing := missing + [id];
      } else if !before[id] && now[id] {
        repaired := repaired + [id];
      }
    }
    assert ids[..|ids|] == ids;
    SortedPart(suite, before.Keys, before.Keys - now.Keys);
    SortedPart(suite, before.Keys, FixedChecks(now, before));
  }

  /** The gate from the two reports to the verdict. */
  method EvaluateReviewGate(suite: Suite, candidate: Fields, baseline: Fields) returns (r: Verdict)
    requires Sorts(suite)
    ensures r == Gate(suite, candidate, baseline)
  {
    hide Problems, Scanned, Sorts;
    var problems, before := RequiredReviewChecks(suite, baseline);
    var errors := Labelled(Baseline, problems);
    var now;
    problems, now := RequiredReviewChecks(suite, candidate);
    errors := errors + Labelled(Candidate, problems);
    var known, broken := CompareCandidate(suite, now, before);
    var missing, repaired := CompareBaseline(suite, now, before);
    r := Verdict(errors == [] && broken == [] && missing == [], errors, known, broken, missing, repaired);
  }
}
