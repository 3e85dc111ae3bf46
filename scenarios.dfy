/**
 * Worked examples of the whole pipeline (grouper, then cheat rule): a lone
 * skip, a skip with in-window evidence, a skip whose accepted submission came
 * too late, a submission exactly at the end second, and a contest unknown to
 * the registry, which the batch counters still count as cheated.
 */
module Scenarios {
  import opened Codeforces
  import opened Classifier
  import opened Grouper
  import opened Batch

  const Registry: seq<RegistryEntry> := [RegistryEntry(10, 0, 200)]

  lemma SingleContestKeys(subs: seq<Submission>)
    requires subs != [] && subs[0].verdict == Skipped
    requires forall j :: 0 <= j < |subs| ==> subs[j].contestId == subs[0].contestId
    ensures AscendingKeys(SkippedContestIds(subs)) == [subs[0].contestId]
  {
    var c := subs[0].contestId;
    assert SkippedContestIds(subs) == {c};
    AscendingUnique(AscendingKeys({c}), [c]);
  }

  /** One skip, nothing accepted: the contest is flagged. */
  lemma LoneSkipIsCheated()
    ensures var subs := [Submission(1, 10, Skipped, 100)];
      Verdicts(SkippedGroups(Some(Response(StatusOk, subs))), Registry) == [ContestResult(10, true)]
  {
    var subs := [Submission(1, 10, Skipped, 100)];
    SingleContestKeys(subs);
    assert Records(subs, 10) == [SubmissionRecord(1, Skipped, 100)] by {
      assert subs[..0] == [];
    }
  }

  /** An "OK" at any time `t` up to the end 0 + 200: the skip is cleared. */
  lemma InWindowAcceptClears(t: int)
    requires t <= 200
    ensures var subs := [Submission(1, 10, Skipped, 100), Submission(2, 10, Accepted, t)];
      Verdicts(SkippedGroups(Some(Response(StatusOk, subs))), Registry) == [ContestResult(10, false)]
  {
    var subs := [Submission(1, 10, Skipped, 100), Submission(2, 10, Accepted, t)];
    SingleContestKeys(subs);
    assert Records(subs, 10) == [SubmissionRecord(1, Skipped, 100), SubmissionRecord(2, Accepted, t)] by {
      assert subs[..|subs| - 1] == [subs[0]];
      assert Records([subs[0]], 10) == [SubmissionRecord(1, Skipped, 100)] by {
        assert [subs[0]][..0] == [];
      }
    }
    assert InWindow(Records(subs, 10)[1], 200);
  }

  /** The end second itself is still in the window (the bound is inclusive). */
  lemma AcceptAtEndSecondClears()
    ensures var subs := [Submission(1, 10, Skipped, 100), Submission(2, 10, Accepted, 200)];
      Verdicts(SkippedGroups(Some(Response(StatusOk, subs))), Registry) == [ContestResult(10, false)]
  {
    InWindowAcceptClears(200);
  }

  /** An "OK" at time 250, after the end 200, does not clear the flag. */
  lemma LateAcceptStaysCheated()
    ensures var subs := [Submission(1, 10, Skipped, 100), Submission(2, 10, Accepted, 250)];
      Verdicts(SkippedGroups(Some(Response(StatusOk, subs))), Registry) == [ContestResult(10, true)]
  {
    var subs := [Submission(1, 10, Skipped, 100), Submission(2, 10, Accepted, 250)];
    SingleContestKeys(subs);
    assert Records(subs, 10) == [SubmissionRecord(1, Skipped, 100), SubmissionRecord(2, Accepted, 250)] by {
      assert subs[..|subs| - 1] == [subs[0]];
      assert Records([subs[0]], 10) == [SubmissionRecord(1, Skipped, 100)] by {
        assert [subs[0]][..0] == [];
      }
    }
  }

  /**
   * Contest 99 is missing from the registry: it gets no verdict, yet the
   * batch report counts it under `noOfCheated`.
   */
  lemma UnregisteredCountedAsCheated(r: UserResult)
    requires IsReportFor(r, UserSkips("u", [ContestGroup(99, [SubmissionRecord(1, Skipped, 100)])]), Registry)
    ensures r.contests == [] && r.noOfNonCheated == 0 && r.noOfCheated == 1
  {
    var g := [ContestGroup(99, [SubmissionRecord(1, Skipped, 100)])];
    assert Find(Registry, 99).None?;
    assert Classify(g[0], Registry) == [];
    assert g[..0] == [];
    assert Verdicts(g, Registry) == [];
  }
}
