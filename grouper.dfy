/**
 * The submission grouper `processUserData`. The same code, up to formatting
 * and quote style, appears in React-Webpage/src/App.jsx (as a `const` arrow
 * function), index.js and dynamic/server.js; it is modelled once here.
 *
 * The code fills a dictionary keyed by contest id, then reads it back with
 * `Object.values`, which lists integer-like keys in ascending numeric order,
 * keeps the contests that saw a "SKIPPED" verdict and drops the `hasSkipped`
 * flag. `SkippedGroups` is an independent, declarative statement of the
 * result; `ProcessUserData` is the dictionary-building code, proved equal to it.
 */
module Grouper {
  import opened Codeforces

  // ---------------------------------------------------------------------
  // Specification

  predicate StrictlyAscending(ids: seq<nat>)
  {
    forall i, j :: 0 <= i < j < |ids| ==> ids[i] < ids[j]
  }

  /** The copy `{submissionId, verdict, time}` of a fetched submission. */
  function ToRecord(s: Submission): SubmissionRecord
  {
    SubmissionRecord(s.id, s.verdict, s.creationTimeSeconds)
  }

  /** The records of the submissions to contest `c`, in input order. */
  function Records(subs: seq<Submission>, c: nat): seq<SubmissionRecord>
  {
    if subs == [] then []
    else
      var last := subs[|subs| - 1];
      Records(subs[..|subs| - 1], c) + (if last.contestId == c then [ToRecord(last)] else [])
  }

  /** The contests that occur in the submission list. */
  function ContestIds(subs: seq<Submission>): set<nat>
  {
    set j | 0 <= j < |subs| :: subs[j].contestId
  }

  /** The contests in which at least one submission is exactly "SKIPPED". */
  function SkippedContestIds(subs: seq<Submission>): set<nat>
  {
    set j | 0 <= j < |subs| && subs[j].verdict == Skipped :: subs[j].contestId
  }

  predicate HasSkip(subs: seq<Submission>, c: nat)
  {
    exists j :: 0 <= j < |subs| && subs[j].contestId == c && subs[j].verdict == Skipped
  }

  /** The least element of a non-empty set of contest ids. */
  function Least(ids: set<nat>): (m: nat)
    requires ids != {}
    ensures m in ids && forall k :: k in ids ==> m <= k
  {
    LeastExists(ids);
    var m :| m in ids && forall k :: k in ids ==> m <= k;
    m
  }

  lemma {:induction false} LeastExists(ids: set<nat>)
    requires ids != {}
    ensures exists m :: m in ids && forall k :: k in ids ==> m <= k
    decreases ids
  {
    var x :| x in ids;
    if ids != {x} {
      LeastExists(ids - {x});
      var m :| m in ids - {x} && forall k :: k in ids - {x} ==> m <= k;
      var least := if x < m then x else m;
      forall k | k in ids ensures least <= k {
        if k != x { assert k in ids - {x}; }
      }
    } else {
      assert forall k :: k in ids ==> x <= k;
    }
  }

  /** The order in which `Object.values` visits integer-like keys: ascending. */
  function AscendingKeys(ids: set<nat>): (r: seq<nat>)
    ensures StrictlyAscending(r)
    ensures forall k :: k in r <==> k in ids
    decreases ids
  {
    if ids == {} then []
    else
      var m := Least(ids);
      [m] + AscendingKeys(ids - {m})
  }

  /** One `{contestId, submissions}` group per id, carrying every submission to that contest. */
  function GroupsFor(subs: seq<Submission>, ids: seq<nat>): (r: seq<ContestGroup>)
    ensures |r| == |ids|
    ensures forall k :: 0 <= k < |r| ==> r[k] == ContestGroup(ids[k], Records(subs, ids[k]))
  {
    if ids == [] then []
    else [ContestGroup(ids[0], Records(subs, ids[0]))] + GroupsFor(subs, ids[1..])
  }

  /**
   * What `processUserData` returns: nothing for a null or non-"OK" response;
   * otherwise, in ascending contest id, every contest with a skip, each with
   * all of its submissions in input order.
   */
  function SkippedGroups(data: Option<Response>): seq<ContestGroup>
  {
    match data
    case None => []
    case Some(resp) =>
      if resp.status != StatusOk then []
      else GroupsFor(resp.result, AscendingKeys(SkippedContestIds(resp.result)))
  }

  // ---------------------------------------------------------------------
  // The code: a dictionary of contest entries, `Object.values`, `filter`, `map`

  /** `{contestId, submissions, hasSkipped}`, a value of the `contests` dictionary. */
  datatype ContestEntry = ContestEntry(contestId: nat, submissions: seq<SubmissionRecord>, hasSkipped: bool)

  function ValuesAt(m: map<nat, ContestEntry>, ks: seq<nat>): (r: seq<ContestEntry>)
    requires forall k :: k in ks ==> k in m
    ensures |r| == |ks|
  {
    if ks == [] then [] else [m[ks[0]]] + ValuesAt(m, ks[1..])
  }

  /** `Object.values(contests)`: the entries in ascending key order. */
  function ObjectValues(m: map<nat, ContestEntry>): (r: seq<ContestEntry>)
    ensures |r| == |m.Keys|
  {
    var ks := AscendingKeys(m.Keys);
    AscendingKeysSize(m.Keys);
    ValuesAt(m, ks)
  }

  /** `.filter(c => c.hasSkipped).map(({contestId, submissions}) => ({contestId, submissions}))` */
  function KeepSkipped(es: seq<ContestEntry>): (r: seq<ContestGroup>)
    ensures |r| <= |es|
  {
    if es == [] then []
    else
      (if es[0].hasSkipped then [ContestGroup(es[0].contestId, es[0].submissions)] else [])
      + KeepSkipped(es[1..])
  }

  /** The grouper as `processUserData` writes it, proved to compute `SkippedGroups`. */
  method ProcessUserData(data: Option<Response>) returns (groups: seq<ContestGroup>)
    ensures data.None? || data.value.status != StatusOk ==> groups == []
    ensures groups == SkippedGroups(data)
  {
    if data.Some? && data.value.status == StatusOk {
      var subs := data.value.result;
      var contests: map<nat, ContestEntry> := map[];
      for i := 0 to |subs|
        invariant forall c :: c in contests <==> c in ContestIds(subs[..i])
        invariant forall c :: c in contests ==>
          contests[c] == ContestEntry(c, Records(subs[..i], c), HasSkip(subs[..i], c))
      {
        var s := subs[i];
        assert subs[..i + 1][..i] == subs[..i];
        assert subs[..i + 1][i] == s;
        if s.contestId !in contests {
          RecordsAbsent(subs[..i], s.contestId);
          contests := contests[s.contestId := ContestEntry(s.contestId, [], false)];
        }
        var e := contests[s.contestId];
        e := e.(submissions := e.submissions + [ToRecord(s)]);
        if s.verdict == Skipped {
          e := e.(hasSkipped := true);
        }
        contests := contests[s.contestId := e];
        forall c ensures c in ContestIds(subs[..i + 1]) <==> c in ContestIds(subs[..i]) || c == s.contestId {
          PrefixIds(subs, i, c);
        }
        forall c | c in contests
          ensures HasSkip(subs[..i + 1], c) == if c == s.contestId then HasSkip(subs[..i], c) || s.verdict == Skipped
                                               else HasSkip(subs[..i], c)
        {
          PrefixSkip(subs, i, c);
        }
      }
      assert subs[..|subs|] == subs;
      groups := KeepSkipped(ObjectValues(contests));
      FromDictionary(subs, contests);
    } else {
      groups := [];
    }
  }

  // ---------------------------------------------------------------------
  // Lemmas connecting the code to the specification

  lemma {:induction false} RecordsAbsent(subs: seq<Submission>, c: nat)
    requires c !in ContestIds(subs)
    ensures Records(subs, c) == [] && !HasSkip(subs, c)
  {
    if subs != [] {
      var p := subs[..|subs| - 1];
      forall j | 0 <= j < |p| ensures p[j].contestId != c {
        assert p[j] == subs[j];
      }
      RecordsAbsent(p, c);
    }
  }

  lemma PrefixIds(subs: seq<Submission>, i: nat, c: nat)
    requires i < |subs|
    ensures c in ContestIds(subs[..i + 1]) <==> c in ContestIds(subs[..i]) || c == subs[i].contestId
  {
    var p, q := subs[..i + 1], subs[..i];
    if c in ContestIds(p) && c != subs[i].contestId {
      var j :| 0 <= j < |p| && p[j].contestId == c;
      assert q[j] == p[j];
    }
    if c in ContestIds(q) {
      var j :| 0 <= j < |q| && q[j].contestId == c;
      assert p[j] == q[j];
    }
    if c == subs[i].contestId {
      assert p[i].contestId == c;
    }
  }

  lemma PrefixSkip(subs: seq<Submission>, i: nat, c: nat)
    requires i < |subs|
    ensures HasSkip(subs[..i + 1], c) == if c == subs[i].contestId then HasSkip(subs[..i], c) || subs[i].verdict == Skipped
                                         else HasSkip(subs[..i], c)
  {
    var p, q := subs[..i + 1], subs[..i];
    if HasSkip(p, c) {
      var j :| 0 <= j < |p| && p[j].contestId == c && p[j].verdict == Skipped;
      if j < i { assert q[j] == p[j]; }
    }
    if HasSkip(q, c) {
      var j :| 0 <= j < |q| && q[j].contestId == c && q[j].verdict == Skipped;
      assert p[j] == q[j];
    }
    if c == subs[i].contestId && subs[i].verdict == Skipped {
      assert p[i] == subs[i];
    }
  }

  lemma HasSkipIsSkippedId(subs: seq<Submission>, c: nat)
    ensures HasSkip(subs, c) <==> c in SkippedContestIds(subs)
  {
    if c in SkippedContestIds(subs) {
      var j :| 0 <= j < |subs| && subs[j].verdict == Skipped && subs[j].contestId == c;
    }
  }

  lemma {:induction false} AscendingKeysSize(ids: set<nat>)
    ensures |AscendingKeys(ids)| == |ids|
    decreases ids
  {
    if ids != {} {
      var m := Least(ids);
      AscendingKeysSize(ids - {m});
      assert m !in AscendingKeys(ids - {m});
    }
  }

  /** Two strictly ascending sequences with the same elements are equal. */
  lemma {:induction false} AscendingUnique(a: seq<nat>, b: seq<nat>)
    requires StrictlyAscending(a) && StrictlyAscending(b)
    requires forall k :: k in a <==> k in b
    ensures a == b
  {
    if a != [] { assert a[0] in b; }
    if b != [] { assert b[0] in a; }
    if a != [] {
      assert a[0] == b[0] by {
        assert b[0] in a && a[0] in b;
        var i :| 0 <= i < |a| && a[i] == b[0];
        var j :| 0 <= j < |b| && b[j] == a[0];
        assert a[0] <= a[i] && b[0] <= b[j];
      }
      forall k ensures k in a[1..] <==> k in b[1..] {
        if k in a[1..] {
          var i :| 1 <= i < |a| && a[i] == k;
          assert k in b && k != b[0];
        }
        if k in b[1..] {
          var j :| 1 <= j < |b| && b[j] == k;
          assert k in a && k != a[0];
        }
      }
      AscendingUnique(a[1..], b[1..]);
    }
  }

  /** The ids of `ks` that lie in `keep`, in the order of `ks`. */
  function FilterIds(ks: seq<nat>, keep: set<nat>): (r: seq<nat>)
    ensures forall k :: k in r <==> k in ks && k in keep
  {
    if ks == [] then []
    else (if ks[0] in keep then [ks[0]] else []) + FilterIds(ks[1..], keep)
  }

  lemma {:induction false} FilterAscending(ks: seq<nat>, keep: set<nat>)
    requires StrictlyAscending(ks)
    ensures StrictlyAscending(FilterIds(ks, keep))
  {
    if ks != [] {
      FilterAscending(ks[1..], keep);
      var rest := FilterIds(ks[1..], keep);
      forall k | k in rest ensures ks[0] < k {
        var i :| 1 <= i < |ks| && ks[i] == k;
      }
      if ks[0] in keep {
        var r := [ks[0]] + rest;
        forall i, j | 0 <= i < j < |r| ensures r[i] < r[j] {
          assert r[j] == rest[j - 1] && r[j] in rest;
          if i > 0 { assert r[i] == rest[i - 1]; }
        }
      }
    }
  }

  lemma {:induction false} KeepSkippedValues(subs: seq<Submission>, m: map<nat, ContestEntry>, ks: seq<nat>)
    requires forall k :: k in ks ==> k in m
    requires forall k :: k in m ==> m[k] == ContestEntry(k, Records(subs, k), HasSkip(subs, k))
    ensures KeepSkipped(ValuesAt(m, ks)) == GroupsFor(subs, FilterIds(ks, SkippedContestIds(subs)))
  {
    if ks != [] {
      HasSkipIsSkippedId(subs, ks[0]);
      KeepSkippedValues(subs, m, ks[1..]);
      assert ValuesAt(m, ks)[1..] == ValuesAt(m, ks[1..]);
    }
  }

  /** After the loop, reading the dictionary back gives `SkippedGroups`. */
  lemma FromDictionary(subs: seq<Submission>, m: map<nat, ContestEntry>)
    requires forall c :: c in m <==> c in ContestIds(subs)
    requires forall c :: c in m ==> m[c] == ContestEntry(c, Records(subs, c), HasSkip(subs, c))
    ensures KeepSkipped(ObjectValues(m)) == GroupsFor(subs, AscendingKeys(SkippedContestIds(subs)))
  {
    var ks := AscendingKeys(m.Keys);
    var skipped := SkippedContestIds(subs);
    KeepSkippedValues(subs, m, ks);
    FilterAscending(ks, skipped);
    forall k ensures k in FilterIds(ks, skipped) <==> k in AscendingKeys(skipped) {
      if k in skipped {
        var j :| 0 <= j < |subs| && subs[j].verdict == Skipped && subs[j].contestId == k;
        assert k in ContestIds(subs);
      }
    }
    AscendingUnique(FilterIds(ks, skipped), AscendingKeys(skipped));
  }

  // ---------------------------------------------------------------------
  // Properties of the grouper's result

  /** `Records` distributes over concatenation: the records keep input order. */
  lemma {:induction false} RecordsAppend(a: seq<Submission>, b: seq<Submission>, c: nat)
    ensures Records(a + b, c) == Records(a, c) + Records(b, c)
  {
    if b != [] {
      var b' := b[..|b| - 1];
      assert (a + b)[..|a + b| - 1] == a + b';
      RecordsAppend(a, b', c);
    } else {
      assert a + b == a;
    }
  }

  /** A contest with a skip keeps that skip among its records. */
  lemma {:induction false} SkipRecorded(subs: seq<Submission>, c: nat)
    requires HasSkip(subs, c)
    ensures exists k :: 0 <= k < |Records(subs, c)| && Records(subs, c)[k].verdict == Skipped
  {
    var p, last := subs[..|subs| - 1], subs[|subs| - 1];
    if last.contestId == c && last.verdict == Skipped {
      assert Records(subs, c)[|Records(subs, c)| - 1] == ToRecord(last);
    } else {
      var j :| 0 <= j < |subs| && subs[j].contestId == c && subs[j].verdict == Skipped;
      assert j < |p| && p[j] == subs[j];
      SkipRecorded(p, c);
      var k :| 0 <= k < |Records(p, c)| && Records(p, c)[k].verdict == Skipped;
      assert Records(subs, c)[k] == Records(p, c)[k];
    }
  }

  /** Every returned group holds at least one "SKIPPED" submission. */
  lemma EveryGroupSkipped(data: Option<Response>)
    ensures forall g :: g in SkippedGroups(data) ==>
      exists k :: 0 <= k < |g.submissions| && g.submissions[k].verdict == Skipped
  {
    if data.Some? && data.value.status == StatusOk {
      var subs := data.value.result;
      forall g | g in SkippedGroups(data)
        ensures exists k :: 0 <= k < |g.submissions| && g.submissions[k].verdict == Skipped
      {
        HasSkipIsSkippedId(subs, g.contestId);
        SkipRecorded(subs, g.contestId);
      }
    }
  }

  /**
   * For an "OK" response: a contest is returned iff one of its submissions is
   * "SKIPPED"; contest ids come out strictly ascending (so pairwise distinct);
   * and each group carries every submission to its contest, in input order.
   */
  lemma SkippedGroupsShape(resp: Response)
    requires resp.status == StatusOk
    ensures var gs := SkippedGroups(Some(resp));
      && (forall c :: (exists k :: 0 <= k < |gs| && gs[k].contestId == c) <==> HasSkip(resp.result, c))
      && (forall i, j :: 0 <= i < j < |gs| ==> gs[i].contestId < gs[j].contestId)
      && (forall k :: 0 <= k < |gs| ==> gs[k].submissions == Records(resp.result, gs[k].contestId))
  {
    var gs := SkippedGroups(Some(resp));
    var ids := AscendingKeys(SkippedContestIds(resp.result));
    forall c ensures (exists k :: 0 <= k < |gs| && gs[k].contestId == c) <==> HasSkip(resp.result, c) {
      HasSkipIsSkippedId(resp.result, c);
      if HasSkip(resp.result, c) {
        var k :| 0 <= k < |ids| && ids[k] == c;
        assert gs[k].contestId == c;
      }
    }
  }

  /** A response without any "SKIPPED" verdict yields no groups. */
  lemma {:induction false} NoSkipNoGroups(data: Option<Response>)
    requires data.Some? ==> forall j :: 0 <= j < |data.value.result| ==> data.value.result[j].verdict != Skipped
    ensures SkippedGroups(data) == []
  {
    if data.Some? && data.value.status == StatusOk {
      var ids := SkippedContestIds(data.value.result);
      assert ids == {};
      assert AscendingKeys(ids) == [];
    }
  }

  function TotalSubmissions(gs: seq<ContestGroup>): nat
  {
    if gs == [] then 0 else |gs[0].submissions| + TotalSubmissions(gs[1..])
  }

  /** How many submissions belong to one of the contests `ids`. */
  function CountIn(subs: seq<Submission>, ids: set<nat>): nat
  {
    if subs == [] then 0
    else CountIn(subs[..|subs| - 1], ids) + (if subs[|subs| - 1].contestId in ids then 1 else 0)
  }

  lemma {:induction false} RecordsCount(subs: seq<Submission>, c: nat)
    ensures |Records(subs, c)| == CountIn(subs, {c})
  {
    if subs != [] {
      RecordsCount(subs[..|subs| - 1], c);
    }
  }

  lemma {:induction false} CountInUnion(subs: seq<Submission>, c: nat, ids: set<nat>)
    requires c !in ids
    ensures CountIn(subs, {c} + ids) == CountIn(subs, {c}) + CountIn(subs, ids)
  {
    if subs != [] {
      CountInUnion(subs[..|subs| - 1], c, ids);
    }
  }

  lemma {:induction false} TotalOfGroupsFor(subs: seq<Submission>, ids: seq<nat>, s: set<nat>)
    requires StrictlyAscending(ids)
    requires forall k :: k in ids <==> k in s
    ensures TotalSubmissions(GroupsFor(subs, ids)) == CountIn(subs, s)
    decreases ids
  {
    if ids == [] {
      assert s == {};
      CountInEmpty(subs);
    } else {
      var rest, s' := ids[1..], s - {ids[0]};
      assert GroupsFor(subs, ids)[1..] == GroupsFor(subs, rest);
      forall k ensures k in rest <==> k in s' {
        if k in rest {
          var i :| 1 <= i < |ids| && ids[i] == k;
        }
      }
      TotalOfGroupsFor(subs, rest, s');
      RecordsCount(subs, ids[0]);
      assert s == {ids[0]} + s';
      CountInUnion(subs, ids[0], s');
    }
  }

  lemma {:induction false} CountInEmpty(subs: seq<Submission>)
    ensures CountIn(subs, {}) == 0
  {
    if subs != [] { CountInEmpty(subs[..|subs| - 1]); }
  }

  /**
   * The groups hold, between them, exactly the input submissions whose
   * contest contains a skip: none is lost and none is counted twice.
   */
  lemma TotalSubmissionsKept(resp: Response)
    requires resp.status == StatusOk
    ensures TotalSubmissions(SkippedGroups(Some(resp))) == CountIn(resp.result, SkippedContestIds(resp.result))
  {
    var ids := AscendingKeys(SkippedContestIds(resp.result));
    TotalOfGroupsFor(resp.result, ids, SkippedContestIds(resp.result));
  }
}
