/**
 The regression gate from report texts to verdict
 (scripts/mcp_conformance/run_codex_compliance.py), without mentioning how reports are read:
 which reports are usable, what they state, when a candidate passes and what is listed.
 */
module RegressionVerdict {
  import opened JsonValue
  import opened Listing
  import opened GateRelation
  import opened RegressionReport
  import opened RegressionGate
  import opened ReportFacts
  import opened RegressionClean
  import opened Compaction

  // ---------------------------------------------------------------- one record of a compact baseline

  /** The record spells out this identity. */
  predicate Spells(v: Value, id: Identity) {
    v.Obj? && Get(v.fields, Mode) == Str(id.mode)
    && Get(v.fields, TransportKey) == Str(TransportText(id.transport))
    && Get(v.fields, SourceKey) == Str(SourceText(id.source))
    && Get(v.fields, Scenario) == Str(id.scenario) && Get(v.fields, CheckId) == Str(id.checkId)
  }

  /** The record names a required version, a transport and a source, a scenario and a check. */
  predicate GoodRecord(suite: Suite, v: Value) {
    v.Obj?
    && Get(v.fields, Mode).Str? && Get(v.fields, Mode).s in suite.modes
    && (Get(v.fields, TransportKey) == Str("stdio") || Get(v.fields, TransportKey) == Str("official-http"))
    && (Get(v.fields, SourceKey) == Str("official") || Get(v.fields, SourceKey) == Str("harness")
        || Get(v.fields, SourceKey) == Str("supplemental"))
    && Get(v.fields, Scenario).Str? && Get(v.fields, CheckId).Str? && Get(v.fields, CheckId) != Str("")
  }

  lemma TransportSays(v: Value, transport: Transport)
    ensures ParseTransport(v) == Some(transport) <==> v == Str(TransportText(transport))
  {
    assert "stdio"[0] == 's' && "official-http"[0] == 'o';
  }

  lemma GoodRecordReads(suite: Suite, v: Value)
    ensures ReadRecord(suite, v).Good? <==> GoodRecord(suite, v)
  {
    if v.Obj? {
      var transport, source := Get(v.fields, TransportKey), Get(v.fields, SourceKey);
      TransportSays(transport, Stdio);
      TransportSays(transport, OfficialHttp);
      SourceSays(source, Official);
      SourceSays(source, Harness);
      SourceSays(source, Supplemental);
      hide ParseTransport, ParseSource;
    }
  }

  lemma ReadSpells(suite: Suite, v: Value)
    requires ReadRecord(suite, v).Good?
    ensures Spells(v, ReadRecord(suite, v).value)
  {
    var id := ReadRecord(suite, v).value;
    TransportSays(Get(v.fields, TransportKey), id.transport);
    SourceSays(Get(v.fields, SourceKey), id.source);
    hide ParseTransport, ParseSource, TransportText, SourceText;
  }

  lemma SpellsOne(v: Value, id: Identity, other: Identity)
    requires Spells(v, id) && Spells(v, other)
    ensures id == other
  {
    TransportSays(Get(v.fields, TransportKey), id.transport);
    TransportSays(Get(v.fields, TransportKey), other.transport);
    SourceSays(Get(v.fields, SourceKey), id.source);
    SourceSays(Get(v.fields, SourceKey), other.source);
    hide ParseTransport, ParseSource, TransportText, SourceText;
  }

  /** A record is read exactly as the identity it spells. */
  lemma RecordIff(suite: Suite, v: Value, id: Identity)
    ensures ReadRecord(suite, v) == Good(id) <==> GoodRecord(suite, v) && Spells(v, id)
  {
    GoodRecordReads(suite, v);
    hide ReadRecord, GoodRecord, Spells;
    if GoodRecord(suite, v) {
      ReadSpells(suite, v);
      if Spells(v, id) {
        SpellsOne(v, id, ReadRecord(suite, v).value);
      }
    }
  }

  // ---------------------------------------------------------------- one bucket

  predicate SpelledIn(records: seq<Value>, id: Identity) {
    exists i :: 0 <= i < |records| && Spells(records[i], id)
  }

  /** Every record is good and no two spell the same identity. */
  ghost predicate GoodRecords(suite: Suite, records: seq<Value>) {
    (forall i | 0 <= i < |records| :: GoodRecord(suite, records[i]))
    && forall i, j, id | 0 <= i < j < |records| && Spells(records[i], id) :: !Spells(records[j], id)
  }

  predicate CleanBucket(b: Bucket) {
    b.Bucket? && b.problems == []
  }

  lemma SpelledInAppend(records: seq<Value>, id: Identity)
    requires records != []
    ensures SpelledIn(records, id) <==> SpelledIn(records[..|records| - 1], id) || Spells(records[|records| - 1], id)
  {
    hide Spells;
    var front := records[..|records| - 1];
    if SpelledIn(front, id) {
      var i :| 0 <= i < |front| && Spells(front[i], id);
      assert Spells(records[i], id);
    }
    if SpelledIn(records, id) && !Spells(records[|records| - 1], id) {
      var i :| 0 <= i < |records| && Spells(records[i], id);
      assert Spells(front[i], id);
    }
  }

  lemma GoodRecordsAppend(suite: Suite, records: seq<Value>)
    requires records != []
    ensures
      var front, last := records[..|records| - 1], records[|records| - 1];
      GoodRecords(suite, records)
      <==> GoodRecords(suite, front) && GoodRecord(suite, last) && forall id | Spells(last, id) :: !SpelledIn(front, id)
  {
    hide Spells, GoodRecord;
    var front, last := records[..|records| - 1], records[|records| - 1];
    assert forall i | 0 <= i < |front| :: front[i] == records[i];
    if GoodRecords(suite, records) {
      forall id | Spells(last, id) ensures !SpelledIn(front, id) {
        assert records[|front|] == last;
      }
      forall i, j, id | 0 <= i < j < |front| && Spells(front[i], id) ensures !Spells(front[j], id) {
        assert Spells(records[i], id);
      }
    }
    if GoodRecords(suite, front) && GoodRecord(suite, last) && forall id | Spells(last, id) :: !SpelledIn(front, id) {
      forall i, j, id | 0 <= i < j < |records| && Spells(records[i], id) ensures !Spells(records[j], id) {
        assert Spells(front[i], id) && SpelledIn(front, id);
      }
    }
  }

  /** A bucket leaves no problem exactly if its records are good and distinct, and then holds what they spell. */
  lemma {:induction false} BucketCleanIff(suite: Suite, records: seq<Value>)
    ensures CleanBucket(ReadRecords(suite, records)) <==> GoodRecords(suite, records)
    ensures GoodRecords(suite, records) ==>
      forall id :: id in ReadRecords(suite, records).ids <==> SpelledIn(records, id)
  {
    if records != [] {
      var last := records[|records| - 1];
      BucketCleanIff(suite, records[..|records| - 1]);
      GoodRecordsAppend(suite, records);
      forall id ensures (ReadRecord(suite, last) == Good(id) <==> GoodRecord(suite, last) && Spells(last, id))
        && (SpelledIn(records, id) <==> SpelledIn(records[..|records| - 1], id) || Spells(last, id))
      {
        RecordIff(suite, last, id);
        SpelledInAppend(records, id);
      }
      GoodRecordReads(suite, last);
      hide ReadRecord, GoodRecord, Spells, SpelledIn, GoodRecords;
    }
  }

  // ---------------------------------------------------------------- what a report states

  function BucketOf(f: Fields, status: Status): Value {
    var checks := Get(f, ChecksKey);
    if !checks.Obj? then Null
    else match status
      case Pass => Get(checks.fields, Passing)
      case Fail => Get(checks.fields, Failing)
      case Skip => Null
  }

  /** A compact baseline states what its two buckets spell. */
  predicate CompactStates(f: Fields, o: Observation) {
    BucketOf(f, o.1).Arr? && SpelledIn(BucketOf(f, o.1).items, o.0)
  }

  /** A report states that a check passed, failed or was skipped. */
  predicate States(suite: Suite, f: Fields, id: Identity, status: Status) {
    if Get(f, BaselineKind) == Null
    then id.mode in suite.modes && Get(f, Cases).Arr? && Listed(suite, Get(f, Cases).items, (id, status))
    else CompactStates(f, (id, status))
  }

  /** Something is stated of this version and transport. */
  ghost predicate SomeStated(f: Fields, mode: string, transport: Transport) {
    exists o :: CompactStates(f, o) && o.0.mode == mode && o.0.transport == transport
  }

  /** Something other than a supplemental check is stated of this scenario over official HTTP. */
  ghost predicate ScenarioStated(f: Fields, mode: string, scenario: string) {
    exists o :: CompactStates(f, o) && o.0.mode == mode && o.0.transport == OfficialHttp
      && o.0.source != Supplemental && o.0.scenario == scenario
  }

  /** A compact baseline that is in order. */
  ghost predicate CompactInOrder(suite: Suite, f: Fields) {
    var transports := Get(f, Transports);
    GoodHeader(suite, f) && Get(f, BaselineKind) == Str("mcp-conformance-regression-baseline-v1")
    && Get(f, RequiredModes) == Texts(suite.modes)
    && (transports == Arr([Str("stdio"), Str("official-http")])
        || transports == Arr([Str("official-http"), Str("stdio")]))
    && BucketOf(f, Pass).Arr? && GoodRecords(suite, BucketOf(f, Pass).items)
    && BucketOf(f, Fail).Arr? && GoodRecords(suite, BucketOf(f, Fail).items)
    && forall mode | mode in suite.modes ::
         RanCatalog(suite, f, mode) && SomeStated(f, mode, Stdio) && SomeStated(f, mode, OfficialHttp)
         && forall s :: ScenarioStated(f, mode, s) <==> s in suite.catalog(mode)
  }

  lemma TransportsIff(v: Value)
    ensures BothTransports(v)
       <==> v == Arr([Str("stdio"), Str("official-http")]) || v == Arr([Str("official-http"), Str("stdio")])
  {
    if v.Arr? && |v.items| == 2 {
      var a, b := v.items[0], v.items[1];
      assert v.items == [a, b];
      assert (set x | x in v.items) == {a, b};
      assert "stdio"[0] == 's' && "official-http"[0] == 'o';
      if BothTransports(v) {
        assert Str("stdio") in {a, b} && Str("official-http") in {a, b};
      }
    }
  }

  lemma CompactCompleteIff(suite: Suite, f: Fields, observed: set<Observation>, mode: string)
    requires forall o :: o in observed <==> CompactStates(f, o)
    ensures CompleteIn(suite, observed, mode)
       <==> SomeStated(f, mode, Stdio) && SomeStated(f, mode, OfficialHttp)
            && forall s :: ScenarioStated(f, mode, s) <==> s in suite.catalog(mode)
  {
    hide CompactStates;
    assert forall t :: Covers(observed, mode, t) <==> SomeStated(f, mode, t);
    assert forall s :: s in ObservedScenarios(observed, mode) <==> ScenarioStated(f, mode, s);
    hide Covers, SomeStated, ObservedScenarios, ScenarioStated;
    assert ObservedScenarios(observed, mode) == SetOf(suite.catalog(mode))
      <==> forall s :: s in ObservedScenarios(observed, mode) <==> s in suite.catalog(mode);
  }

  predicate GoodBuckets(suite: Suite, f: Fields) {
    BucketOf(f, Pass).Arr? && CleanBucket(ReadRecords(suite, BucketOf(f, Pass).items))
    && BucketOf(f, Fail).Arr? && CleanBucket(ReadRecords(suite, BucketOf(f, Fail).items))
  }

  function Bucketed(suite: Suite, f: Fields): set<Observation>
    requires GoodBuckets(suite, f)
  {
    Tagged(ReadRecords(suite, BucketOf(f, Pass).items).ids, Pass)
    + Tagged(ReadRecords(suite, BucketOf(f, Fail).items).ids, Fail)
  }

  lemma CompactCleanParts(suite: Suite, f: Fields)
    ensures Clean(ReadCompact(suite, f))
       <==> HeaderProblems(suite, f) == [] && Get(f, BaselineKind) == Str(COMPACT_KIND)
            && Get(f, RequiredModes) == Texts(suite.modes) && BothTransports(Get(f, Transports))
            && GoodBuckets(suite, f)
            && AllCoverageProblems(suite, Selected(f), Bucketed(suite, f), suite.modes) == []
    ensures Clean(ReadCompact(suite, f)) ==> ReadCompact(suite, f).observed == Bucketed(suite, f)
  {
    TransportsIff(Get(f, Transports));
    hide HeaderProblems, BothTransports, ReadRecords, AllCoverageProblems, Tagged, Selected, Texts;
    if Get(f, ChecksKey).Obj? {
      assert BucketOf(f, Pass) == Get(Get(f, ChecksKey).fields, Passing);
      assert BucketOf(f, Fail) == Get(Get(f, ChecksKey).fields, Failing);
    }
  }

  lemma BucketedStates(suite: Suite, f: Fields)
    requires GoodBuckets(suite, f)
    ensures forall o :: o in Bucketed(suite, f) <==> CompactStates(f, o)
  {
    BucketCleanIff(suite, BucketOf(f, Pass).items);
    BucketCleanIff(suite, BucketOf(f, Fail).items);
    hide SpelledIn, ReadRecords, GoodRecords;
    forall o ensures o in Bucketed(suite, f) <==> CompactStates(f, o) {
      assert BucketOf(f, Skip) == Null;
    }
  }

  /** A compact baseline has no problem exactly if it is in order, and what is read is what it states. */
  lemma CompactCleanIff(suite: Suite, f: Fields)
    ensures Clean(ReadCompact(suite, f)) <==> CompactInOrder(suite, f)
    ensures Clean(ReadCompact(suite, f)) ==>
      forall o :: o in ReadCompact(suite, f).observed <==> CompactStates(f, o)
  {
    HeaderIff(suite, f);
    TransportsIff(Get(f, Transports));
    CompactCleanParts(suite, f);
    hide ReadCompact, HeaderProblems, BothTransports, ReadRecords, CompactStates, AllCoverageProblems, RunsCatalog;
    hide Selected, RanCatalog, SomeStated, ScenarioStated, CompleteIn, GoodRecords, Texts, BucketOf, Bucketed;
    if BucketOf(f, Pass).Arr? && BucketOf(f, Fail).Arr? {
      BucketCleanIff(suite, BucketOf(f, Pass).items);
      BucketCleanIff(suite, BucketOf(f, Fail).items);
    }
    if GoodBuckets(suite, f) && GoodHeader(suite, f) {
      hide GoodHeader;
      BucketedStates(suite, f);
      CoverageIff(suite, Selected(f), Bucketed(suite, f), suite.modes);
      forall mode | mode in suite.modes
        ensures RunsCatalog(suite, Selected(f), mode) && CompleteIn(suite, Bucketed(suite, f), mode)
           <==> RanCatalog(suite, f, mode) && SomeStated(f, mode, Stdio) && SomeStated(f, mode, OfficialHttp)
                && forall s :: ScenarioStated(f, mode, s) <==> s in suite.catalog(mode)
      {
        RanCatalogIff(suite, f, mode);
        CompactCompleteIff(suite, f, Bucketed(suite, f), mode);
      }
    }
  }

  /** A report the gate can use, full or compact, with its sign-in policy. */
  ghost predicate Usable(suite: Suite, f: Fields) {
    (if Get(f, BaselineKind) == Null then InOrder(suite, f) else CompactInOrder(suite, f))
    && Get(f, AutomaticAuthRequired).Bool?
  }

  lemma UsableIff(suite: Suite, f: Fields)
    ensures Readable(suite, f) <==> Usable(suite, f)
  {
    if Get(f, BaselineKind) == Null {
      FullCleanIff(suite, f);
    } else {
      CompactCleanIff(suite, f);
    }
    hide ReadFull, ReadCompact, InOrder, CompactInOrder;
  }

  /** The statuses merged under an identity are those the report states of it. */
  lemma StatedIff(suite: Suite, f: Fields, id: Identity, status: Status)
    requires Clean(Read(suite, f))
    ensures Has(ChecksOf(suite, f), id, status) <==> States(suite, f, id, status)
  {
    MergedHas(Read(suite, f).observed, id, status);
    if Get(f, BaselineKind) == Null {
      FullCleanIff(suite, f);
      FullObserves(suite, f, (id, status));
    } else {
      CompactCleanIff(suite, f);
    }
    hide ReadFull, ReadCompact, CompactInOrder, Listed, CompactStates, Merged, GoodHeader, GoodList;
  }

  lemma MergedHas(observed: set<Observation>, id: Identity, status: Status)
    ensures Has(Merged(observed), id, status) <==> (id, status) in observed
  {
    if (id, status) in observed {
      assert id in Identities(observed);
      assert status in StatusesIn(observed, id);
    }
  }

  // ---------------------------------------------------------------- the verdict

  /**
   What the candidate must live up to: it fails nothing that the baseline does not fail, still
   passes what the baseline passes, still runs what the baseline fails, and neither of them
   fails in the shipping version.
   */
  ghost predicate LivesUpTo(suite: Suite, candidate: Fields, baseline: Fields) {
    (forall id | States(suite, candidate, id, Fail) :: States(suite, baseline, id, Fail) && id.mode != suite.shipping)
    && (forall id | States(suite, baseline, id, Pass) :: States(suite, candidate, id, Pass))
    && (forall id | States(suite, baseline, id, Fail) ::
          id.mode != suite.shipping
          && (States(suite, candidate, id, Fail) || States(suite, candidate, id, Pass)))
  }

  lemma LivesUpToIff(suite: Suite, candidate: Fields, baseline: Fields)
    requires Clean(Read(suite, candidate)) && Clean(Read(suite, baseline))
    ensures NoWorse(ChecksOf(suite, candidate), ChecksOf(suite, baseline), suite.shipping)
       <==> LivesUpTo(suite, candidate, baseline)
  {
    hide States, ChecksOf, NoWorse, Has, Read;
    var now, before := ChecksOf(suite, candidate), ChecksOf(suite, baseline);
    NoWorseIff(now, before, suite.shipping);
    HasOnly(now);
    HasOnly(before);
    forall id, status
      ensures (Has(now, id, status) <==> States(suite, candidate, id, status))
        && (Has(before, id, status) <==> States(suite, baseline, id, status))
    {
      StatedIff(suite, candidate, id, status);
      StatedIff(suite, baseline, id, status);
    }
  }

  lemma HasOnly(checks: Checks)
    ensures forall id, status | Has(checks, id, status) :: id in checks
  {
  }

  /** The gate passes exactly a usable candidate of the same policy that lives up to a usable baseline. */
  lemma GateIff(suite: Suite, candidate: Fields, baseline: Fields)
    requires Sorts(suite)
    ensures Passes(suite, candidate, baseline)
       <==> Usable(suite, candidate) && Usable(suite, baseline)
            && Get(candidate, AutomaticAuthRequired) == Get(baseline, AutomaticAuthRequired)
            && LivesUpTo(suite, candidate, baseline)
  {
    hide Sorts, Usable, Read, LivesUpTo, NoWorse, ChecksOf, Passes;
    PassesIff(suite, candidate, baseline);
    UsableIff(suite, candidate);
    UsableIff(suite, baseline);
    if Readable(suite, candidate) && Readable(suite, baseline) {
      LivesUpToIff(suite, candidate, baseline);
    }
  }

  /** A newly failing check fails the gate, whatever else the reports say. */
  lemma NewFailureFails(suite: Suite, candidate: Fields, baseline: Fields, id: Identity)
    requires Sorts(suite) && States(suite, candidate, id, Fail) && !States(suite, baseline, id, Fail)
    ensures !Passes(suite, candidate, baseline)
  {
    GateIff(suite, candidate, baseline);
  }

  // ---------------------------------------------------------------- compact forms

  /** Exactly the usable reports without failures in the shipping version can be compacted. */
  lemma CompactsIff(suite: Suite, f: Fields)
    ensures Compact(suite, f).Ok?
       <==> Usable(suite, f) && forall id | States(suite, f, id, Fail) :: id.mode != suite.shipping
  {
    UsableIff(suite, f);
    hide Usable, Read, Merged, CompactForm;
    if Readable(suite, f) {
      forall id ensures Has(ChecksOf(suite, f), id, Fail) <==> States(suite, f, id, Fail) {
        StatedIff(suite, f, id, Fail);
      }
      hide States;
      forall id ensures id in FailedIn(ChecksOf(suite, f), suite.shipping)
        <==> id.mode == suite.shipping && States(suite, f, id, Fail)
      {
      }
      if id :| id in FailedIn(ChecksOf(suite, f), suite.shipping) {
        assert States(suite, f, id, Fail) && id.mode == suite.shipping;
      }
    }
  }

  /** The buckets of a compact form spell what was not skipped. */
  lemma FormStates(suite: Suite, f: Fields, observed: set<Observation>, o: Observation)
    requires Sorts(suite) && Wellformed(suite, observed)
    ensures CompactStates(CompactForm(suite, f, Merged(observed)), o) <==> o in observed && o.1 != Skip
  {
    var c, checks := CompactForm(suite, f, Merged(observed)), Merged(observed);
    var passing, failing := WithStatus(checks, Pass), WithStatus(checks, Fail);
    CompactHeader(suite, f, checks);
    MergedWellformed(suite, observed);
    SortedRead(suite, passing);
    SortedRead(suite, failing);
    TaggedIsNotSkipped(observed);
    hide CompactForm, HeaderProblems, ReadRecords, Records, Merged, WithStatus, Sorts, Texts, CompactStates, Tagged;
    assert BucketOf(c, Pass) == Arr(Records(suite.sorted(passing)));
    assert BucketOf(c, Fail) == Arr(Records(suite.sorted(failing)));
    BucketedStates(suite, c);
    assert Bucketed(suite, c) == NotSkipped(observed);
  }

  /** A compact form states exactly what the report stated as passed or failed. */
  lemma CompactFormStates(suite: Suite, f: Fields, id: Identity, status: Status)
    requires Sorts(suite) && Compact(suite, f).Ok?
    ensures States(suite, Compact(suite, f).value, id, status) <==> States(suite, f, id, status) && status != Skip
  {
    var observed := Read(suite, f).observed;
    CleanFacts(suite, f);
    FormStates(suite, f, observed, (id, status));
    CompactHeader(suite, f, Merged(observed));
    StatedIff(suite, f, id, status);
    MergedHas(observed, id, status);
    assert Compact(suite, f).value == CompactForm(suite, f, Merged(observed));
    hide Read, CompactForm, Merged, HeaderProblems, Records, Compact, CompactStates, FailedIn, Sorts;
    var c := CompactForm(suite, f, Merged(observed));
    assert Get(c, BaselineKind) != Null;
    assert States(suite, c, id, status) == CompactStates(c, (id, status));
  }
}
