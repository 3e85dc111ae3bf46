/**
 * Shared data of the skip/cheat pipeline: the Codeforces `user.status`
 * response that is fed to the grouper, the per-contest groups it produces,
 * the contest registry (contests.json) and the per-contest verdicts.
 */
module Codeforces {

  datatype Option<+T> = None | Some(value: T)

  /** One item of `result` in a `user.status` response (only the fields the pipeline reads). */
  datatype Submission = Submission(id: int, contestId: nat, verdict: string, creationTimeSeconds: int)

  /** The decoded response body; `None` stands for a null/failed fetch. */
  datatype Response = Response(status: string, result: seq<Submission>)

  /** `{submissionId, verdict, time}`, the copy of a submission kept in a contest's list. */
  datatype SubmissionRecord = SubmissionRecord(submissionId: int, verdict: string, time: int)

  /** `{contestId, submissions}`, one contest of a user in which something was skipped. */
  datatype ContestGroup = ContestGroup(contestId: nat, submissions: seq<SubmissionRecord>)

  /** One entry of the contest registry: when the contest started and how long it lasted (seconds). */
  datatype RegistryEntry = RegistryEntry(contestId: nat, startTime: int, duration: int)

  /** `{contestId, cheated}`, the classifier's decision for one contest. */
  datatype ContestResult = ContestResult(contestId: nat, cheated: bool)

  /** The `status` of a successful `user.status` response. */
  const StatusOk: string := "OK"

  const Skipped: string := "SKIPPED"
  const Accepted: string := "OK"
  const Partial: string := "PARTIAL"
}
