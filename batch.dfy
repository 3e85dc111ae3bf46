/**
 * `processUsers`, the batch classifier of dynamic/server.js and time.js (the
 * two copies differ only in logging). For every harvested user it judges each
 * skipped contest the registry knows, stops scanning a contest's submissions
 * at the first in-window evidence, and fills in the per-user counters.
 */
module Batch {
  import opened Codeforces
  import opened Classifier

  /** `{userID, skippedContests}`, one user as harvested by the grouper. */
  datatype UserSkips = UserSkips(userID: string, skippedContests: seq<ContestGroup>)

  /** `{userID, noOfSkipped, contests, noOfNonCheated, noOfCheated}` */
  datatype UserResult = UserResult(userID: string, noOfSkipped: int, contests: seq<ContestResult>,
                                   noOfNonCheated: int, noOfCheated: int)

  /**
   * What `processUsers` writes for user `u`: its id, a `noOfSkipped` field
   * that is never updated, the registered skipped contests with their
   * verdicts, the number judged not cheated, and `noOfCheated` taken as the
   * number of SKIPPED contests (registered or not) minus that number.
   */
  predicate IsReportFor(r: UserResult, u: UserSkips, registry: seq<RegistryEntry>)
  {
    && r.userID == u.userID
    && r.noOfSkipped == 0
    && r.contests == Verdicts(u.skippedContests, registry)
    && r.noOfNonCheated == CountNonCheated(r.contests)
    && r.noOfCheated == |u.skippedContests| - r.noOfNonCheated
  }

  method ProcessUsers(contests: seq<RegistryEntry>, users: seq<UserSkips>) returns (results: seq<UserResult>)
    ensures |results| == |users|
    ensures forall k :: 0 <= k < |users| ==> IsReportFor(results[k], users[k], contests)
  {
    results := [];
    for u := 0 to |users|
      invariant |results| == u
      invariant forall k :: 0 <= k < u ==> IsReportFor(results[k], users[k], contests)
    {
      var userResult := ProcessUser(contests, users[u]);
      ghost var before := results;
      results := results + [userResult];
      forall k | 0 <= k < u + 1 ensures IsReportFor(results[k], users[k], contests) {
        if k < u { assert results[k] == before[k]; }
      }
    }
  }

  /**
   * The `for (const submission of ...)` loop: `cheated` starts true and the
   * scan breaks at the first in-window "OK"/"PARTIAL"; the early exit gives
   * the same answer as looking at every submission.
   */
  method ScanUntilEvidence(subs: seq<SubmissionRecord>, contestEndTime: int) returns (cheated: bool)
    ensures cheated == Cheated(subs, contestEndTime)
  {
    cheated := true;
    var j := 0;
    while j < |subs|
      invariant 0 <= j <= |subs|
      invariant forall k :: 0 <= k < j ==> !InWindow(subs[k], contestEndTime)
    {
      if (subs[j].verdict == Accepted || subs[j].verdict == Partial) && subs[j].time <= contestEndTime {
        cheated := false;
        break;
      }
      j := j + 1;
    }
  }

  /** The `users.forEach` callback: one user's report. */
  method ProcessUser(contests: seq<RegistryEntry>, user: UserSkips) returns (userResult: UserResult)
    ensures IsReportFor(userResult, user, contests)
  {
    var noOfSkipped := 0;
    var userContests: seq<ContestResult> := [];
    for i := 0 to |user.skippedContests|
      invariant userContests == Verdicts(user.skippedContests[..i], contests)
      invariant noOfSkipped == CountNonCheated(userContests)
    {
      var skippedContest := user.skippedContests[i];
      VerdictsStep(user.skippedContests, i, contests);
      var contest := Find(contests, skippedContest.contestId);
      if contest.Some? {
        var contestEndTime := contest.value.startTime + contest.value.duration;
        var cheated := ScanUntilEvidence(skippedContest.submissions, contestEndTime);
        if !cheated {
          noOfSkipped := noOfSkipped + 1;
        }
        CountNonCheatedStep(userContests, ContestResult(skippedContest.contestId, cheated));
        userContests := userContests + [ContestResult(skippedContest.contestId, cheated)];
      }
    }
    assert user.skippedContests[..|user.skippedContests|] == user.skippedContests;
    userResult := UserResult(user.userID, 0, userContests, noOfSkipped, |user.skippedContests| - noOfSkipped);
  }

  // ---------------------------------------------------------------------
  // Properties of the per-user counters

  /**
   * `noOfNonCheated` never exceeds the number of verdicts, which never
   * exceeds the number of skipped contests; the two counters add up to the
   * number of skipped contests, and `noOfCheated` is the number of cheated
   * verdicts PLUS the skipped contests missing from the registry.
   */
  lemma ReportCounters(r: UserResult, u: UserSkips, registry: seq<RegistryEntry>)
    requires IsReportFor(r, u, registry)
    ensures 0 <= r.noOfNonCheated <= |r.contests| <= |u.skippedContests|
    ensures r.noOfCheated + r.noOfNonCheated == |u.skippedContests|
    ensures r.noOfCheated == CountCheated(r.contests) + (|u.skippedContests| - CountFound(u.skippedContests, registry))
  {
    VerdictsLength(u.skippedContests, registry);
    CountsPartition(r.contests);
  }

  /** `noOfCheated` counts exactly the cheated verdicts iff every skipped contest is registered. */
  lemma CheatedCountExactIffAllRegistered(r: UserResult, u: UserSkips, registry: seq<RegistryEntry>)
    requires IsReportFor(r, u, registry)
    ensures r.noOfCheated == CountCheated(r.contests)
            <==> forall i :: 0 <= i < |u.skippedContests| ==> Find(registry, u.skippedContests[i].contestId).Some?
  {
    ReportCounters(r, u, registry);
    AllFound(u.skippedContests, registry);
  }

  lemma {:induction false} AllFound(groups: seq<ContestGroup>, registry: seq<RegistryEntry>)
    ensures CountFound(groups, registry) == |groups|
            <==> forall i :: 0 <= i < |groups| ==> Find(registry, groups[i].contestId).Some?
  {
    if groups != [] {
      var p := groups[..|groups| - 1];
      AllFound(p, registry);
      if forall i :: 0 <= i < |groups| ==> Find(registry, groups[i].contestId).Some? {
        forall i | 0 <= i < |p| ensures Find(registry, p[i].contestId).Some? {
          assert p[i] == groups[i];
        }
      }
      if CountFound(groups, registry) == |groups| {
        forall i | 0 <= i < |groups| ensures Find(registry, groups[i].contestId).Some? {
          if i < |p| { assert p[i] == groups[i]; }
        }
      }
    }
  }
}
