/**
 When the conformance gate raises instead of giving a verdict
 (scripts/mcp_conformance/run_codex_compliance.py): a list or dictionary stands where a text is
 looked up in a set, in a part of the report that is read.
 */
module RegressionCrash {
  import opened JsonValue
  import opened GateRelation
  import opened RegressionReport
  import opened RegressionGate

  predicate Container(v: Value) {
    v.Arr? || v.Obj?
  }

  /** The source is looked up first; the status only of a check that can be identified. */
  predicate CheckRaises(v: Value) {
    v.Obj? &&
    (Container(Get(v.fields, SourceKey))
     || ((Get(v.fields, SourceKey) == Str("official") || Get(v.fields, SourceKey) == Str("harness")
          || Get(v.fields, SourceKey) == Str("supplemental"))
         && Get(v.fields, Name).Str? && Get(v.fields, Name) != Str("")
         && MissingOrText(Get(v.fields, Scenario)) && MissingOrText(Get(v.fields, CheckId))
         && Container(Get(v.fields, StatusKey))))
  }

  predicate MissingOrText(v: Value) {
    v == Null || (v.Str? && v != Str(""))
  }

  lemma CheckRaisesIff(suite: Suite, mode: string, transport: Transport, v: Value)
    ensures ReadCheck(suite, mode, transport, v) == Unparsable <==> CheckRaises(v)
  {
    hide StableName;
  }

  predicate SomeRaises(raw: seq<Value>) {
    exists i :: 0 <= i < |raw| && CheckRaises(raw[i])
  }

  lemma {:induction false} ChecksRaiseIff(suite: Suite, mode: string, transport: Transport, raw: seq<Value>)
    ensures ReadChecks(suite, mode, transport, raw).Crash? <==> SomeRaises(raw)
  {
    hide ReadCheck, CheckRaises;
    if raw != [] {
      var n := |raw| - 1;
      ChecksRaiseIff(suite, mode, transport, raw[..n]);
      CheckRaisesIff(suite, mode, transport, raw[n]);
      assert SomeRaises(raw) <==> SomeRaises(raw[..n]) || CheckRaises(raw[n]) by {
        assert forall i | 0 <= i < n :: raw[..n][i] == raw[i];
      }
    }
  }

  /** The first case of the list for a version and transport. */
  predicate FirstCase(list: seq<Value>, i: nat, mode: string, transport: string) {
    i < |list| && IsCase(list[i], mode, transport) && forall j | 0 <= j < i :: !IsCase(list[j], mode, transport)
  }

  predicate IsCase(v: Value, mode: string, transport: string) {
    v.Obj? && Get(v.fields, Mode) == Str(mode) && Get(v.fields, TransportKey) == Str(transport)
  }

  /** The table of cases holds the first of each kind. */
  lemma {:induction false} TableIff(suite: Suite, list: seq<Value>, mode: string, transport: string)
    requires mode in suite.modes
    ensures
      var cases := CollectCases(suite, list).cases;
      ((mode, transport) in cases <==> exists i: nat :: i < |list| && IsCase(list[i], mode, transport))
      && forall i: nat | FirstCase(list, i, mode, transport) ::
           (mode, transport) in cases && Obj(cases[(mode, transport)]) == list[i]
  {
    if list != [] {
      var n := |list| - 1;
      TableIff(suite, list[..n], mode, transport);
      assert forall i | 0 <= i < n :: list[..n][i] == list[i];
      if i: nat :| i < n && IsCase(list[i], mode, transport) {
        assert IsCase(list[..n][i], mode, transport);
      }
      forall i: nat | FirstCase(list, i, mode, transport) && i < n ensures FirstCase(list[..n], i, mode, transport) {
      }
      TableStep(suite, list, mode, transport);
    }
  }

  lemma TableStep(suite: Suite, list: seq<Value>, mode: string, transport: string)
    requires list != [] && mode in suite.modes
    ensures
      var n := |list| - 1;
      var key, was, now := (mode, transport), CollectCases(suite, list[..n]).cases, CollectCases(suite, list).cases;
      (key in now <==> key in was || IsCase(list[n], mode, transport))
      && (key in was ==> now[key] == was[key])
      && (key !in was && key in now ==> Obj(now[key]) == list[n])
  {
  }

  /** A case that is read has a check that raises. */
  ghost predicate CaseRaises(list: seq<Value>, mode: string, transport: string) {
    exists i: nat :: FirstCase(list, i, mode, transport) && ItsChecksRaise(list[i])
  }

  predicate ItsChecksRaise(v: Value) {
    v.Obj? && Get(v.fields, ChecksKey).Arr? && SomeRaises(Get(v.fields, ChecksKey).items)
  }

  lemma {:induction false} FirstExists(list: seq<Value>, mode: string, transport: string, n: nat) returns (i: nat)
    requires n < |list| && IsCase(list[n], mode, transport)
    ensures FirstCase(list, i, mode, transport)
  {
    hide IsCase;
    if j: nat :| j < n && IsCase(list[j], mode, transport) {
      i := FirstExists(list, mode, transport, j);
    } else {
      i := n;
    }
  }

  lemma CaseRaisesIff(suite: Suite, list: seq<Value>, mode: string, transport: Transport)
    requires mode in suite.modes
    ensures ReadCase(suite, CollectCases(suite, list).cases, mode, transport).Crash?
       <==> CaseRaises(list, mode, if transport.Stdio? then "stdio" else "official-http")
  {
    hide CollectCases, ReadChecks, IsCase, SomeRaises, ScenarioProblems;
    var name := if transport.Stdio? then "stdio" else "official-http";
    assert name == TransportName(transport);
    var cases := CollectCases(suite, list).cases;
    TableIff(suite, list, mode, name);
    if (mode, name) in cases {
      var n: nat :| n < |list| && IsCase(list[n], mode, name);
      var i := FirstExists(list, mode, name, n);
      var raw := Get(cases[(mode, name)], ChecksKey);
      if raw.Arr? {
        ChecksRaiseIff(suite, mode, transport, raw.items);
        NothingRaises();
      }
      OneFirst(list, mode, name, i);
    }
  }

  lemma NothingRaises()
    ensures !SomeRaises([])
  {
  }

  lemma OneFirst(list: seq<Value>, mode: string, transport: string, i: nat)
    requires FirstCase(list, i, mode, transport)
    ensures forall j: nat | FirstCase(list, j, mode, transport) :: j == i
  {
    hide IsCase;
  }

  ghost predicate ModeRaises(list: seq<Value>, mode: string) {
    CaseRaises(list, mode, "stdio") || CaseRaises(list, mode, "official-http")
  }

  lemma {:induction false} ModesRaiseIff(suite: Suite, list: seq<Value>, selected: Fields, modes: seq<string>)
    requires forall mode | mode in modes :: mode in suite.modes
    ensures ReadModes(suite, CollectCases(suite, list).cases, selected, modes).Crash?
       <==> exists mode :: mode in modes && ModeRaises(list, mode)
  {
    hide CollectCases, ReadCase, CaseRaises;
    if modes != [] {
      var front, last := modes[..|modes| - 1], modes[|modes| - 1];
      assert modes == front + [last];
      ModesRaiseIff(suite, list, selected, front);
      CaseRaisesIff(suite, list, last, Stdio);
      CaseRaisesIff(suite, list, last, OfficialHttp);
      hide ModeRaises;
      assert (exists mode :: mode in modes && ModeRaises(list, mode))
        <==> (exists mode :: mode in front && ModeRaises(list, mode)) || ModeRaises(list, last) by
      {
        assert forall mode | mode in modes :: mode in front || mode == last;
        assert last in modes && forall mode | mode in front :: mode in modes;
      }
      assert ModeRaises(list, last) <==> CaseRaises(list, last, "stdio") || CaseRaises(list, last, "official-http") by {
        ModeRaisesMeans(list, last);
      }
    }
  }

  lemma ModeRaisesMeans(list: seq<Value>, mode: string)
    ensures ModeRaises(list, mode) <==> CaseRaises(list, mode, "stdio") || CaseRaises(list, mode, "official-http")
  {
  }

  // ---------------------------------------------------------------- compact baselines

  /** The transport is looked up first, of a record of a required version; the source only after a known transport. */
  predicate RecordRaises(suite: Suite, v: Value) {
    v.Obj? && Get(v.fields, Mode).Str? && Get(v.fields, Mode).s in suite.modes &&
    (Container(Get(v.fields, TransportKey))
     || ((Get(v.fields, TransportKey) == Str("stdio") || Get(v.fields, TransportKey) == Str("official-http"))
         && Container(Get(v.fields, SourceKey))))
  }

  predicate BucketRaises(suite: Suite, v: Value) {
    v.Arr? && exists i :: 0 <= i < |v.items| && RecordRaises(suite, v.items[i])
  }

  lemma RecordRaisesIff(suite: Suite, v: Value)
    ensures ReadRecord(suite, v) == Unparsable <==> RecordRaises(suite, v)
  {
  }

  lemma {:induction false} RecordsRaiseIff(suite: Suite, records: seq<Value>)
    ensures ReadRecords(suite, records).BucketCrash? <==> BucketRaises(suite, Arr(records))
  {
    hide ReadRecord, RecordRaises;
    if records != [] {
      var n := |records| - 1;
      RecordsRaiseIff(suite, records[..n]);
      RecordRaisesIff(suite, records[n]);
      assert BucketRaises(suite, Arr(records))
        <==> BucketRaises(suite, Arr(records[..n])) || RecordRaises(suite, records[n]) by
      {
        assert forall i | 0 <= i < n :: records[..n][i] == records[i];
      }
    }
  }

  // ---------------------------------------------------------------- the whole report

  /** A compact baseline of the known kind that raises: in its two transports, or in a record. */
  predicate CompactRaises(suite: Suite, f: Fields) {
    var transports, checks := Get(f, Transports), Get(f, ChecksKey);
    Get(f, BaselineKind) == Str("mcp-conformance-regression-baseline-v1")
    && ((transports.Arr? && |transports.items| == 2
         && (Container(transports.items[0]) || Container(transports.items[1])))
        || (checks.Obj?
            && (BucketRaises(suite, Get(checks.fields, Passing)) || BucketRaises(suite, Get(checks.fields, Failing)))))
  }

  ghost predicate FullRaises(suite: Suite, f: Fields) {
    Get(f, BaselineKind) == Null && Get(f, Cases).Arr?
    && exists mode :: mode in suite.modes && ModeRaises(Get(f, Cases).items, mode)
  }

  lemma CompactRaisesIff(suite: Suite, f: Fields)
    ensures ReadCompact(suite, f).Crash? <==> CompactRaises(suite, f)
  {
    hide HeaderProblems, ReadRecords, BucketRaises, AllCoverageProblems, Texts, Tagged, BothTransports;
    var transports, checks := Get(f, Transports), Get(f, ChecksKey);
    if transports.Arr? && |transports.items| == 2 {
      var items := transports.items;
      assert items[0] in items && items[1] in items;
    }
    if checks.Obj? {
      BucketRaisesIff(suite, Get(checks.fields, Passing), Pass);
      BucketRaisesIff(suite, Get(checks.fields, Failing), Fail);
    }
  }

  lemma BucketRaisesIff(suite: Suite, v: Value, status: Status)
    ensures ReadBucket(suite, v, status).BucketCrash? <==> BucketRaises(suite, v)
  {
    hide ReadRecords;
    if v.Arr? {
      RecordsRaiseIff(suite, v.items);
    }
  }

  /** Reading a report raises exactly for these reports. */
  lemma RaisesIff(suite: Suite, f: Fields)
    ensures Read(suite, f).Crash? <==> CompactRaises(suite, f) || FullRaises(suite, f)
  {
    hide ReadCompact, CompactRaises, CollectCases, ReadModes, HeaderProblems, ModeRaises;
    CompactRaisesIff(suite, f);
    if CompactRaises(suite, f) {
      KindNeeded(suite, f);
    }
    var list := Get(f, Cases);
    var items := if list.Arr? then list.items else [];
    ModesRaiseIff(suite, items, Selected(f), suite.modes);
    if !list.Arr? {
      forall mode ensures !ModeRaises([], mode) {
        NoCaseRaises(mode);
      }
    }
  }

  /** There is no verdict exactly if one of the two reports raises. */
  lemma GateRaisesIff(suite: Suite, candidate: Fields, baseline: Fields)
    ensures Gate(suite, candidate, baseline).None? <==>
      (CompactRaises(suite, candidate) || FullRaises(suite, candidate)
       || CompactRaises(suite, baseline) || FullRaises(suite, baseline))
  {
    hide Read, CompactRaises, FullRaises, Judge;
    RaisesIff(suite, candidate);
    RaisesIff(suite, baseline);
  }

  lemma KindNeeded(suite: Suite, f: Fields)
    requires CompactRaises(suite, f)
    ensures Get(f, BaselineKind) != Null
  {
  }

  lemma NoCaseRaises(mode: string)
    ensures !ModeRaises([], mode)
  {
  }
}
