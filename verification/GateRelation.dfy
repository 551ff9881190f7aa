/**
 The decision at the heart of the conformance regression gate
 (scripts/mcp_conformance/run_codex_compliance.py): which checks of a candidate are new
 failures, missing, known failures or fixed against a baseline.

 A check is known by a stable identity under which several observations may be merged, so an
 identity has a set of statuses.
 */
module GateRelation {

  datatype Transport = Stdio | OfficialHttp
  datatype Source = Official | Harness | Supplemental
  datatype Status = Pass | Fail | Skip

  datatype Identity = Identity(mode: string, transport: Transport, source: Source, scenario: string, checkId: string)

  type Checks = map<Identity, set<Status>>

  function StatusesOf(checks: Checks, id: Identity): set<Status> {
    if id in checks then checks[id] else {}
  }

  predicate Has(checks: Checks, id: Identity, status: Status) {
    status in StatusesOf(checks, id)
  }

  function NewFailures(candidate: Checks, baseline: Checks): set<Identity> {
    set id | id in candidate && Has(candidate, id, Fail) && !Has(baseline, id, Fail)
  }

  function KnownFailures(candidate: Checks, baseline: Checks): set<Identity> {
    set id | id in candidate && Has(candidate, id, Fail) && Has(baseline, id, Fail)
  }

  predicate IsMissing(candidate: Checks, baseline: Checks, id: Identity) {
    (Has(baseline, id, Pass) && !Has(candidate, id, Pass))
    || (Has(baseline, id, Fail) && !Has(candidate, id, Fail) && !Has(candidate, id, Pass))
  }

  function MissingChecks(candidate: Checks, baseline: Checks): set<Identity> {
    set id | id in baseline && IsMissing(candidate, baseline, id)
  }

  function FixedChecks(candidate: Checks, baseline: Checks): set<Identity> {
    set id | id in baseline && !IsMissing(candidate, baseline, id)
             && Has(baseline, id, Fail) && !Has(candidate, id, Fail)
  }

  function FailedIn(checks: Checks, mode: string): set<Identity> {
    set id | id in checks && id.mode == mode && Has(checks, id, Fail)
  }

  /** The candidate is no worse: nothing new fails, nothing passing or failing has vanished, shipping is clean. */
  predicate NoWorse(candidate: Checks, baseline: Checks, shipping: string) {
    NewFailures(candidate, baseline) == {} && MissingChecks(candidate, baseline) == {}
    && FailedIn(candidate, shipping) == {} && FailedIn(baseline, shipping) == {}
  }

  /** The same, said of every identity at once. */
  predicate NoWorseEverywhere(candidate: Checks, baseline: Checks, shipping: string) {
    (forall id | id in candidate && Has(candidate, id, Fail) :: Has(baseline, id, Fail) && id.mode != shipping)
    && forall id | id in baseline ::
         (Has(baseline, id, Pass) ==> Has(candidate, id, Pass))
         && (Has(baseline, id, Fail) ==>
               id.mode != shipping && (Has(candidate, id, Fail) || Has(candidate, id, Pass)))
  }

  lemma NoWorseIff(candidate: Checks, baseline: Checks, shipping: string)
    ensures NoWorse(candidate, baseline, shipping) <==> NoWorseEverywhere(candidate, baseline, shipping)
  {
    if NoWorse(candidate, baseline, shipping) {
      forall id | id in candidate && Has(candidate, id, Fail)
        ensures Has(baseline, id, Fail) && id.mode != shipping
      {
        assert id !in NewFailures(candidate, baseline) && id !in FailedIn(candidate, shipping);
      }
      forall id | id in baseline ensures !IsMissing(candidate, baseline, id)
        && (Has(baseline, id, Fail) ==> id.mode != shipping)
      {
        assert id !in MissingChecks(candidate, baseline) && id !in FailedIn(baseline, shipping);
      }
    }
    if NoWorseEverywhere(candidate, baseline, shipping) {
      assert forall id :: id !in NewFailures(candidate, baseline) && id !in MissingChecks(candidate, baseline);
      assert forall id :: id !in FailedIn(candidate, shipping) && id !in FailedIn(baseline, shipping);
    }
  }

  lemma NoWorseReflexive(checks: Checks, shipping: string)
    requires FailedIn(checks, shipping) == {}
    ensures NoWorse(checks, checks, shipping)
  {
    assert forall id :: id !in NewFailures(checks, checks) && id !in MissingChecks(checks, checks);
  }

  lemma NoWorseTransitive(a: Checks, b: Checks, c: Checks, shipping: string)
    requires NoWorse(b, a, shipping) && NoWorse(c, b, shipping)
    ensures NoWorse(c, a, shipping)
  {
    NoWorseIff(b, a, shipping);
    NoWorseIff(c, b, shipping);
    NoWorseIff(c, a, shipping);
  }

  /** The part of a baseline the gate looks at: what passed and what failed. */
  function WithoutSkips(checks: Checks): Checks {
    map id | id in checks && (Pass in checks[id] || Fail in checks[id]) :: checks[id] - {Skip}
  }

  /** Dropping skips from the baseline changes none of the four lists, nor what fails in any mode. */
  lemma SkipsDoNotMatter(candidate: Checks, baseline: Checks, mode: string)
    ensures NewFailures(candidate, WithoutSkips(baseline)) == NewFailures(candidate, baseline)
    ensures KnownFailures(candidate, WithoutSkips(baseline)) == KnownFailures(candidate, baseline)
    ensures MissingChecks(candidate, WithoutSkips(baseline)) == MissingChecks(candidate, baseline)
    ensures FixedChecks(candidate, WithoutSkips(baseline)) == FixedChecks(candidate, baseline)
    ensures FailedIn(WithoutSkips(baseline), mode) == FailedIn(baseline, mode)
  {
    var compact := WithoutSkips(baseline);
    forall id ensures (Has(compact, id, Pass) == Has(baseline, id, Pass))
      && (Has(compact, id, Fail) == Has(baseline, id, Fail))
      && (Has(baseline, id, Pass) || Has(baseline, id, Fail) ==> id in compact && id in baseline)
    {
    }
  }
}
