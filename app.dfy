/**
 * The parts of React-Webpage/src/App.jsx that decide what the page shows:
 * `processUserResults`, the add-a-handle rule of `handleAddUserId` (trim,
 * reject empty or duplicate handles and failed fetches, otherwise prepend)
 * and the per-card badge and colour.
 */
module App {
  import opened Codeforces
  import opened Classifier
  import Grouper

  /**
   * `processUserResults(skippedContests, contests)`: every `forEach` pass
   * scans all of a contest's submissions (no early exit) before pushing.
   */
  method ProcessUserResults(skippedContests: seq<ContestGroup>, contests: seq<RegistryEntry>)
    returns (results: seq<ContestResult>)
    ensures results == Verdicts(skippedContests, contests)
  {
    results := [];
    for i := 0 to |skippedContests|
      invariant results == Verdicts(skippedContests[..i], contests)
    {
      var skippedContest := skippedContests[i];
      VerdictsStep(skippedContests, i, contests);
      var contest := Find(contests, skippedContest.contestId);
      if contest.Some? {
        var contestEndTime := contest.value.startTime + contest.value.duration;
        var cheated := true;
        var subs := skippedContest.submissions;
        for j := 0 to |subs|
          invariant cheated <==> forall k :: 0 <= k < j ==> !InWindow(subs[k], contestEndTime)
        {
          if (subs[j].verdict == Accepted || subs[j].verdict == Partial) && subs[j].time <= contestEndTime {
            cheated := false;
          }
        }
        results := results + [ContestResult(skippedContest.contestId, cheated)];
      }
    }
    assert skippedContests[..|skippedContests|] == skippedContests;
  }

  /**
   * The two stages composed as `handleAddUserId` composes them: every
   * contest that receives a verdict had a "SKIPPED" submission in the
   * fetched response.
   */
  lemma VerdictsOnlyForSkippedContests(resp: Response, registry: seq<RegistryEntry>, k: nat)
    requires resp.status == StatusOk
    requires k < |Verdicts(Grouper.SkippedGroups(Some(resp)), registry)|
    ensures Grouper.HasSkip(resp.result, Verdicts(Grouper.SkippedGroups(Some(resp)), registry)[k].contestId)
  {
    var gs := Grouper.SkippedGroups(Some(resp));
    VerdictsSound(gs, registry, k);
    var i :| 0 <= i < |gs| && JudgedBy(Verdicts(gs, registry)[k], gs[i], registry);
    var ids := Grouper.AscendingKeys(Grouper.SkippedContestIds(resp.result));
    assert gs[i].contestId == ids[i];
    Grouper.HasSkipIsSkippedId(resp.result, ids[i]);
  }

  // ---------------------------------------------------------------------
  // String.prototype.trim

  /** ECMAScript WhiteSpace and LineTerminator code points, which `trim` strips. */
  predicate IsWhitespace(c: char)
  {
    || ('\U{0009}' <= c <= '\U{000D}')   // tab, line feed, vertical tab, form feed, carriage return
    || c == '\U{0020}' || c == '\U{00A0}' || c == '\U{1680}'
    || ('\U{2000}' <= c <= '\U{200A}')
    || c == '\U{2028}' || c == '\U{2029}' || c == '\U{202F}' || c == '\U{205F}'
    || c == '\U{3000}' || c == '\U{FEFF}'
  }

  predicate AllWhitespace(s: string)
  {
    forall i :: 0 <= i < |s| ==> IsWhitespace(s[i])
  }

  /** `s` without its leading whitespace. */
  function TrimStart(s: string): string
  {
    if s == [] || !IsWhitespace(s[0]) then s else TrimStart(s[1..])
  }

  /** `s` without its trailing whitespace. */
  function TrimEnd(s: string): string
  {
    if s == [] || !IsWhitespace(s[|s| - 1]) then s else TrimEnd(s[..|s| - 1])
  }

  lemma {:induction false} TrimStartSpec(s: string)
    ensures var r := TrimStart(s);
      && |r| <= |s| && r == s[|s| - |r|..]
      && AllWhitespace(s[..|s| - |r|])
      && (r == [] || !IsWhitespace(r[0]))
  {
    if s != [] && IsWhitespace(s[0]) {
      TrimStartSpec(s[1..]);
      var r := TrimStart(s);
      assert s[..|s| - |r|] == [s[0]] + s[1..][..|s| - 1 - |r|];
    }
  }

  lemma {:induction false} TrimEndSpec(s: string)
    ensures var r := TrimEnd(s);
      && |r| <= |s| && r == s[..|r|]
      && AllWhitespace(s[|r|..])
      && (r == [] || !IsWhitespace(r[|r| - 1]))
  {
    if s != [] && IsWhitespace(s[|s| - 1]) {
      TrimEndSpec(s[..|s| - 1]);
      var r := TrimEnd(s);
      assert s[|r|..] == s[..|s| - 1][|r|..] + [s[|s| - 1]];
    }
  }

  /** `r` is the slice of `s` starting at `i`, with only whitespace around it. */
  predicate TrimmedAt(s: string, r: string, i: int)
  {
    0 <= i <= |s| - |r| && r == s[i..i + |r|] && AllWhitespace(s[..i]) && AllWhitespace(s[i + |r|..])
  }

  lemma TrimBoth(s: string, t: string, r: string)
    requires |t| <= |s| && t == s[|s| - |t|..] && AllWhitespace(s[..|s| - |t|])
    requires |r| <= |t| && r == t[..|r|] && AllWhitespace(t[|r|..])
    ensures TrimmedAt(s, r, |s| - |t|)
  {
    var i := |s| - |t|;
    assert s[i + |r|..] == t[|r|..];
  }

  /** `s.trim()`. */
  function Trim(s: string): string
  {
    TrimEnd(TrimStart(s))
  }

  /** `trim` removes only whitespace, from both ends, and leaves none at either end. */
  lemma TrimSpec(s: string)
    ensures exists i :: TrimmedAt(s, Trim(s), i)
    ensures Trim(s) == [] || (!IsWhitespace(Trim(s)[0]) && !IsWhitespace(Trim(s)[|Trim(s)| - 1]))
  {
    TrimStartSpec(s);
    TrimEndSpec(TrimStart(s));
    TrimBoth(s, TrimStart(s), Trim(s));
  }

  // ---------------------------------------------------------------------
  // The user cards

  /** `{userID, processedResults}`, one card of the list. */
  datatype UserEntry = UserEntry(userID: string, processedResults: seq<ContestResult>)

  /** The badge "Cheated: n/m": cheated verdicts over all verdicts. */
  function Badge(e: UserEntry): (counts: (nat, nat))
    ensures counts.0 <= counts.1 == |e.processedResults|
  {
    (CountCheated(e.processedResults), |e.processedResults|)
  }

  /** `processedResults.some(r => r.cheated)`: the card is drawn red. */
  predicate CardIsRed(e: UserEntry)
  {
    exists k :: 0 <= k < |e.processedResults| && e.processedResults[k].cheated
  }

  lemma {:induction false} SomeCheatedIffCount(rs: seq<ContestResult>)
    ensures (exists k :: 0 <= k < |rs| && rs[k].cheated) <==> CountCheated(rs) > 0
  {
    if rs != [] {
      var p := rs[..|rs| - 1];
      SomeCheatedIffCount(p);
      if exists k :: 0 <= k < |p| && p[k].cheated {
        var k :| 0 <= k < |p| && p[k].cheated;
        assert rs[k] == p[k];
      }
      if exists k :: 0 <= k < |rs| && rs[k].cheated {
        var k :| 0 <= k < |rs| && rs[k].cheated;
        if k < |p| { assert p[k] == rs[k]; }
      }
    }
  }

  /** A card is red exactly when its badge's numerator is non-zero. */
  lemma CardRedIffBadgePositive(e: UserEntry)
    ensures CardIsRed(e) <==> Badge(e).0 > 0
  {
    SomeCheatedIffCount(e.processedResults);
  }

  predicate NoDuplicates(ids: seq<string>)
  {
    forall i, j :: 0 <= i < j < |ids| ==> ids[i] != ids[j]
  }

  lemma PrependKeepsDistinct(id: string, ids: seq<string>)
    requires NoDuplicates(ids) && id !in ids
    ensures NoDuplicates([id] + ids)
  {
    var r := [id] + ids;
    forall i, j | 0 <= i < j < |r| ensures r[i] != r[j] {
      assert r[j] == ids[j - 1];
      if i > 0 { assert r[i] == ids[i - 1]; }
    }
  }

  /** What `handleAddUserId` did: nothing, a duplicate toast, a fetch-failure toast, or a new card. */
  datatype AddOutcome = Ignored | AlreadyExists | FetchFailed | Added

  /** The page state `handleAddUserId` reads and updates. */
  class UserList {
    var userId: string           // the text box
    var userIds: seq<string>     // handles shown, newest first
    var results: seq<UserEntry>  // their cards, in the same order

    ghost predicate Valid()
      reads this
    {
      && NoDuplicates(userIds)
      && |results| == |userIds|
      && forall k :: 0 <= k < |userIds| ==> results[k].userID == userIds[k]
    }

    constructor ()
      ensures Valid() && userId == [] && userIds == [] && results == []
    {
      userId, userIds, results := [], [], [];
    }

    /**
     * `handleAddUserId`, with `fetched` standing for what `fetchData` returns
     * for the trimmed handle (`None` for null) and `registry` for contests.json.
     */
    method AddUserId(fetched: Option<Response>, registry: seq<RegistryEntry>) returns (outcome: AddOutcome)
      requires Valid()
      modifies this
      ensures Valid()
      ensures var t := Trim(old(userId));
        outcome == if t == [] then Ignored
                   else if t in old(userIds) then AlreadyExists
                   else if fetched.None? then FetchFailed
                   else Added
      ensures outcome != Added ==> userId == old(userId) && userIds == old(userIds) && results == old(results)
      ensures outcome == Added ==>
        && userId == []
        && userIds == [Trim(old(userId))] + old(userIds)
        && results == [UserEntry(Trim(old(userId)),
                                 Verdicts(Grouper.SkippedGroups(fetched), registry))] + old(results)
    {
      var handle := Trim(userId);
      if handle == [] {
        return Ignored;
      }
      if handle in userIds {
        return AlreadyExists;
      }
      if fetched.None? {
        return FetchFailed;
      }
      var skippedContests := Grouper.ProcessUserData(fetched);
      var processedResults := ProcessUserResults(skippedContests, registry);
      PrependKeepsDistinct(handle, userIds);
      userIds := [handle] + userIds;
      results := [UserEntry(handle, processedResults)] + results;
      userId := [];
      outcome := Added;
    }
  }
}
