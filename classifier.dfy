/**
 * The cheat rule shared by `processUserResults` (React-Webpage/src/App.jsx)
 * and `processUsers` (dynamic/server.js, time.js): registry lookup with
 * `Array.find`, the contest end time, the in-window evidence test and the
 * resulting list of `{contestId, cheated}` verdicts.
 */
module Classifier {
  import opened Codeforces

  /**
   * `registry.find(c => c.contestId === id)`: the FIRST entry with that id,
   * or nothing when no entry has it.
   */
  function Find(registry: seq<RegistryEntry>, id: nat): (r: Option<RegistryEntry>)
    ensures r.None? <==> forall i :: 0 <= i < |registry| ==> registry[i].contestId != id
    ensures r.Some? ==> exists i :: 0 <= i < |registry| && registry[i] == r.value && r.value.contestId == id
                          && forall j :: 0 <= j < i ==> registry[j].contestId != id
  {
    if registry == [] then None
    else if registry[0].contestId == id then Some(registry[0])
    else
      Find(registry[1..], id)
  }

  /** `startTime + duration`, the last second that still counts as in-contest. */
  function ContestEnd(e: RegistryEntry): int
  {
    e.startTime + e.duration
  }

  /** Evidence of honest solving: an "OK" or "PARTIAL" verdict no later than the end (inclusive). */
  predicate InWindow(s: SubmissionRecord, end: int)
  {
    (s.verdict == Accepted || s.verdict == Partial) && s.time <= end
  }

  /** A contest stays flagged unless some submission is in-window evidence. */
  predicate Cheated(subs: seq<SubmissionRecord>, end: int)
  {
    !exists k :: 0 <= k < |subs| && InWindow(subs[k], end)
  }

  /** The verdict for one skipped contest: none when the registry lacks it. */
  function Classify(g: ContestGroup, registry: seq<RegistryEntry>): seq<ContestResult>
  {
    match Find(registry, g.contestId)
    case None => []
    case Some(e) => [ContestResult(g.contestId, Cheated(g.submissions, ContestEnd(e)))]
  }

  /** The verdicts for a list of skipped contests, in list order. */
  function Verdicts(groups: seq<ContestGroup>, registry: seq<RegistryEntry>): seq<ContestResult>
  {
    if groups == [] then []
    else Verdicts(groups[..|groups| - 1], registry) + Classify(groups[|groups| - 1], registry)
  }

  /** How many of the groups' contests the registry knows. */
  function CountFound(groups: seq<ContestGroup>, registry: seq<RegistryEntry>): (n: nat)
    ensures n <= |groups|
  {
    if groups == [] then 0
    else CountFound(groups[..|groups| - 1], registry)
         + (if Find(registry, groups[|groups| - 1].contestId).Some? then 1 else 0)
  }

  /** `results.filter(r => r.cheated).length` */
  function CountCheated(rs: seq<ContestResult>): (n: nat)
    ensures n <= |rs|
  {
    if rs == [] then 0 else CountCheated(rs[..|rs| - 1]) + (if rs[|rs| - 1].cheated then 1 else 0)
  }

  /** The number of verdicts with `cheated` false. */
  function CountNonCheated(rs: seq<ContestResult>): (n: nat)
    ensures n <= |rs|
  {
    if rs == [] then 0 else CountNonCheated(rs[..|rs| - 1]) + (if rs[|rs| - 1].cheated then 0 else 1)
  }

  /** One more group extends the verdicts by that group's own verdict (if any). */
  lemma VerdictsStep(groups: seq<ContestGroup>, i: nat, registry: seq<RegistryEntry>)
    requires i < |groups|
    ensures Verdicts(groups[..i + 1], registry) == Verdicts(groups[..i], registry) + Classify(groups[i], registry)
  {
    assert groups[..i + 1][..i] == groups[..i];
  }

  lemma CountNonCheatedStep(rs: seq<ContestResult>, r: ContestResult)
    ensures CountNonCheated(rs + [r]) == CountNonCheated(rs) + (if r.cheated then 0 else 1)
  {
    assert (rs + [r])[..|rs|] == rs;
  }

  // ---------------------------------------------------------------------
  // Properties

  /** Every verdict splits into cheated or not. */
  lemma {:induction false} CountsPartition(rs: seq<ContestResult>)
    ensures CountCheated(rs) + CountNonCheated(rs) == |rs|
  {
    if rs != [] { CountsPartition(rs[..|rs| - 1]); }
  }

  /** One verdict per found contest: unregistered contests are dropped, so never more verdicts than groups. */
  lemma {:induction false} VerdictsLength(groups: seq<ContestGroup>, registry: seq<RegistryEntry>)
    ensures |Verdicts(groups, registry)| == CountFound(groups, registry) <= |groups|
  {
    if groups != [] { VerdictsLength(groups[..|groups| - 1], registry); }
  }

  /** Verdicts come out in the order of the groups they judge. */
  lemma {:induction false} VerdictsAppend(a: seq<ContestGroup>, b: seq<ContestGroup>, registry: seq<RegistryEntry>)
    ensures Verdicts(a + b, registry) == Verdicts(a, registry) + Verdicts(b, registry)
  {
    if b == [] {
      assert a + b == a;
    } else {
      var b' := b[..|b| - 1];
      assert (a + b)[..|a + b| - 1] == a + b';
      VerdictsAppend(a, b', registry);
    }
  }

  /** `r` is the verdict the cheat rule gives for group `g`, whose contest the registry knows. */
  predicate JudgedBy(r: ContestResult, g: ContestGroup, registry: seq<RegistryEntry>)
  {
    && r.contestId == g.contestId
    && Find(registry, g.contestId).Some?
    && r.cheated == Cheated(g.submissions, ContestEnd(Find(registry, g.contestId).value))
  }

  /**
   * Each verdict stems from a skipped contest the registry knows, and is
   * `cheated` exactly when no submission of that contest is "OK"/"PARTIAL"
   * at or before `startTime + duration` of the first matching entry.
   */
  lemma {:induction false} VerdictsSound(groups: seq<ContestGroup>, registry: seq<RegistryEntry>, k: nat)
    requires k < |Verdicts(groups, registry)|
    ensures exists i :: 0 <= i < |groups| && JudgedBy(Verdicts(groups, registry)[k], groups[i], registry)
  {
    var p := groups[..|groups| - 1];
    if k < |Verdicts(p, registry)| {
      VerdictsSound(p, registry, k);
      var i :| 0 <= i < |p| && JudgedBy(Verdicts(p, registry)[k], p[i], registry);
      assert groups[i] == p[i];
    } else {
      assert JudgedBy(Verdicts(groups, registry)[k], groups[|groups| - 1], registry);
    }
  }

  /** Each skipped contest the registry knows gets its verdict. */
  lemma {:induction false} VerdictsComplete(groups: seq<ContestGroup>, registry: seq<RegistryEntry>, i: nat)
    requires i < |groups| && Find(registry, groups[i].contestId).Some?
    ensures ContestResult(groups[i].contestId,
                          Cheated(groups[i].submissions, ContestEnd(Find(registry, groups[i].contestId).value)))
            in Verdicts(groups, registry)
  {
    var p := groups[..|groups| - 1];
    if i < |p| {
      assert p[i] == groups[i];
      VerdictsComplete(p, registry, i);
    }
  }

  /** A contest missing from the registry never appears among the verdicts. */
  lemma {:induction false} UnregisteredOmitted(groups: seq<ContestGroup>, registry: seq<RegistryEntry>, id: nat)
    requires forall i :: 0 <= i < |registry| ==> registry[i].contestId != id
    ensures forall r :: r in Verdicts(groups, registry) ==> r.contestId != id
  {
    if groups != [] {
      UnregisteredOmitted(groups[..|groups| - 1], registry, id);
    }
  }
}
