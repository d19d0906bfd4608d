/**
 * `find_similar_tasks`: rank the issues of the project against a reference
 * issue. The two tracker requests it makes are inputs here: `reference` is
 * what fetching the reference issue returned and `pool` what the search for
 * the project's issues returned.
 */
module Ranking {
  import opened Wrappers
  import opened Records
  import opened Similarity
  import opened ScoreSort

  /** The result entry for pool issue `t`: its key, its summary and its score against the reference text. */
  function EntryFor(refText: string, t: Issue): SimilarTask
  {
    SimilarTask(t.key, SummaryValue(t.fields), Ratio(refText, IssueText(t.fields)))
  }

  /** A pool issue is kept when it is not the reference itself and scores at least the threshold. */
  predicate Qualifies(issueKey: string, refText: string, threshold: real, t: Issue)
  {
    t.key != issueKey && Ratio(refText, IssueText(t.fields)) >= threshold
  }

  /** The list the loop of `find_similar_tasks` builds: the entries of the qualifying issues, in pool order. */
  function Candidates(issueKey: string, refText: string, threshold: real, issues: seq<Issue>): (r: seq<SimilarTask>)
    ensures |r| <= |issues|
    decreases |issues|
  {
    if issues == [] then []
    else
      var rest := Candidates(issueKey, refText, threshold, issues[..|issues| - 1]);
      var t := issues[|issues| - 1];
      if Qualifies(issueKey, refText, threshold, t) then rest + [EntryFor(refText, t)] else rest
  }

  /** Python's `s[:n]`; a negative `n` drops that many entries from the end. */
  function Head(s: seq<SimilarTask>, n: int): (r: seq<SimilarTask>)
    ensures |r| <= |s| && r == s[..|r|]
    ensures n >= 0 ==> |r| == if n <= |s| then n else |s|
    ensures n < 0 ==> |r| == if |s| + n >= 0 then |s| + n else 0
  {
    if n >= 0 then (if n <= |s| then s[..n] else s)
    else if |s| + n >= 0 then s[..|s| + n]
    else []
  }

  /** The `issues` of the search response, when it is a non-empty object that has them. */
  function PoolIssues(pool: Fetched<Option<seq<Issue>>>): Option<seq<Issue>>
  {
    if pool.Object? then pool.body else None
  }

  /** What `find_similar_tasks(issue_key, similarity_threshold, max_results)` returns. */
  function FindSimilar(issueKey: string, reference: Fetched<Option<Fields>>, pool: Fetched<Option<seq<Issue>>>,
                       threshold: real, maxResults: int): (r: Option<seq<SimilarTask>>)
    ensures r.Some? ==> PoolIssues(pool).Some? && |r.value| <= |PoolIssues(pool).value|
    ensures r.Some? && maxResults >= 0 ==> |r.value| <= maxResults
  {
    if !reference.Truthy() then None
    else
      match PoolIssues(pool)
      case None => None
      case Some(issues) =>
        var sorted := SortBySimilarity(Candidates(issueKey, IssueText(reference.body), threshold, issues));
        assert |sorted| == |multiset(sorted)|;
        Some(Head(sorted, maxResults))
  }

  /** Every entry the loop keeps comes from a qualifying pool issue. */
  lemma {:induction false} CandidatesSound(issueKey: string, refText: string, threshold: real, issues: seq<Issue>, e: SimilarTask)
    requires e in Candidates(issueKey, refText, threshold, issues)
    ensures exists t :: t in issues && Qualifies(issueKey, refText, threshold, t) && e == EntryFor(refText, t)
    decreases |issues|
  {
    var init := issues[..|issues| - 1];
    var t := issues[|issues| - 1];
    if e in Candidates(issueKey, refText, threshold, init) {
      CandidatesSound(issueKey, refText, threshold, init, e);
      var u :| u in init && Qualifies(issueKey, refText, threshold, u) && e == EntryFor(refText, u);
      assert u in issues;
    } else {
      assert t in issues;
    }
  }

  /** Every qualifying pool issue has its entry in the loop's list. */
  lemma {:induction false} CandidatesComplete(issueKey: string, refText: string, threshold: real, issues: seq<Issue>, t: Issue)
    requires t in issues && Qualifies(issueKey, refText, threshold, t)
    ensures EntryFor(refText, t) in Candidates(issueKey, refText, threshold, issues)
    decreases |issues|
  {
    var init := issues[..|issues| - 1];
    if t != issues[|issues| - 1] {
      assert issues == init + [issues[|issues| - 1]];
      assert t in init;
      CandidatesComplete(issueKey, refText, threshold, init, t);
    }
  }

  /** The result is `None` exactly when a fetch failed or the search response has no `issues`. */
  lemma ResultIsNoneIff(issueKey: string, reference: Fetched<Option<Fields>>, pool: Fetched<Option<seq<Issue>>>,
                        threshold: real, maxResults: int)
    ensures FindSimilar(issueKey, reference, pool, threshold, maxResults).None? <==>
      reference.NoResponse? || reference.EmptyObject? || pool.NoResponse? || pool.EmptyObject? || pool.body.None?
  {
  }

  /**
   * Every entry of the result belongs to a pool issue other than the reference,
   * carries that issue's key and summary and its score, which is at least the threshold.
   */
  lemma ResultEntriesQualify(issueKey: string, reference: Fetched<Option<Fields>>, pool: Fetched<Option<seq<Issue>>>,
                             threshold: real, maxResults: int, e: SimilarTask)
    requires FindSimilar(issueKey, reference, pool, threshold, maxResults).Some?
    requires e in FindSimilar(issueKey, reference, pool, threshold, maxResults).value
    ensures e.key != issueKey && e.similarity >= threshold
    ensures exists t :: (t in PoolIssues(pool).value && t.key == e.key && t.key != issueKey &&
                         e.summary == SummaryValue(t.fields) && e.similarity == Ratio(IssueText(reference.body), IssueText(t.fields)))
  {
    var refText := IssueText(reference.body);
    var c := Candidates(issueKey, refText, threshold, PoolIssues(pool).value);
    var sorted := SortBySimilarity(c);
    var r := Head(sorted, maxResults);
    assert e in sorted;
    assert e in multiset(c);
    CandidatesSound(issueKey, refText, threshold, PoolIssues(pool).value, e);
  }

  /** The reference issue's own key never appears in the result, whatever the pool holds. */
  lemma ResultExcludesReference(issueKey: string, reference: Fetched<Option<Fields>>, pool: Fetched<Option<seq<Issue>>>,
                                threshold: real, maxResults: int)
    requires FindSimilar(issueKey, reference, pool, threshold, maxResults).Some?
    ensures forall e :: e in FindSimilar(issueKey, reference, pool, threshold, maxResults).value ==> e.key != issueKey
  {
    forall e | e in FindSimilar(issueKey, reference, pool, threshold, maxResults).value ensures e.key != issueKey {
      ResultEntriesQualify(issueKey, reference, pool, threshold, maxResults, e);
    }
  }

  /**
   * The result is the first entries of the full sorted list: `max_results` of
   * them, or all when fewer qualify; then every qualifying issue is in it.
   */
  lemma ResultIsBoundedPrefix(issueKey: string, reference: Fetched<Option<Fields>>, pool: Fetched<Option<seq<Issue>>>,
                              threshold: real, maxResults: int)
    requires FindSimilar(issueKey, reference, pool, threshold, maxResults).Some?
    ensures var r := FindSimilar(issueKey, reference, pool, threshold, maxResults).value;
      var all := SortBySimilarity(Candidates(issueKey, IssueText(reference.body), threshold, PoolIssues(pool).value));
      && IsPrefix(r, all)
      && (maxResults >= 0 ==> |r| == if maxResults <= |all| then maxResults else |all|)
      && (0 <= |all| <= maxResults ==> r == all)
    ensures var r := FindSimilar(issueKey, reference, pool, threshold, maxResults).value;
      var c := Candidates(issueKey, IssueText(reference.body), threshold, PoolIssues(pool).value);
      |c| <= maxResults ==> forall t :: t in PoolIssues(pool).value && Qualifies(issueKey, IssueText(reference.body), threshold, t) ==>
        EntryFor(IssueText(reference.body), t) in r
  {
    var refText := IssueText(reference.body);
    var issues := PoolIssues(pool).value;
    var c := Candidates(issueKey, refText, threshold, issues);
    if |c| <= maxResults {
      forall t | t in issues && Qualifies(issueKey, refText, threshold, t) ensures EntryFor(refText, t) in SortBySimilarity(c) {
        CandidatesComplete(issueKey, refText, threshold, issues, t);
        assert EntryFor(refText, t) in multiset(SortBySimilarity(c));
      }
    }
  }

  /**
   * The result is sorted by similarity, highest first, and the entries of any
   * one similarity appear in pool order: they are the first of that
   * similarity's qualifying issues.
   */
  lemma ResultIsSortedAndStable(issueKey: string, reference: Fetched<Option<Fields>>, pool: Fetched<Option<seq<Issue>>>,
                                threshold: real, maxResults: int, v: real)
    requires FindSimilar(issueKey, reference, pool, threshold, maxResults).Some?
    ensures SortedDesc(FindSimilar(issueKey, reference, pool, threshold, maxResults).value)
    ensures IsPrefix(WithScore(FindSimilar(issueKey, reference, pool, threshold, maxResults).value, v),
                     WithScore(Candidates(issueKey, IssueText(reference.body), threshold, PoolIssues(pool).value), v))
  {
    var c := Candidates(issueKey, IssueText(reference.body), threshold, PoolIssues(pool).value);
    var sorted := SortBySimilarity(c);
    var r := Head(sorted, maxResults);
    SortIsStable(c, v);
    WithScoreOfPrefix(sorted, |r|, v);
  }

  /** With a threshold of 0 every pool issue other than the reference is scored in; capped at `max_results`. */
  lemma ZeroThresholdKeepsOthers(issueKey: string, reference: Fetched<Option<Fields>>, pool: Fetched<Option<seq<Issue>>>,
                                 maxResults: int, t: Issue)
    requires FindSimilar(issueKey, reference, pool, 0.0, maxResults).Some?
    requires t in PoolIssues(pool).value && t.key != issueKey
    requires |PoolIssues(pool).value| <= maxResults
    ensures EntryFor(IssueText(reference.body), t) in FindSimilar(issueKey, reference, pool, 0.0, maxResults).value
  {
    var refText := IssueText(reference.body);
    var issues := PoolIssues(pool).value;
    ResultIsBoundedPrefix(issueKey, reference, pool, 0.0, maxResults);
  }

  /** The three issues of the repository's unit test; NAME-1 is the reference. */
  const TestReference: Fields := Fields(Text("Tarefa de teste"), Text("Descrição da tarefa de teste"), Missing, None)
  const TestSimilar: Fields := Fields(Text("Tarefa de teste similar"), Text("Descrição similar da tarefa de teste"), Missing, None)
  const TestDifferent: Fields := Fields(Text("Tarefa completamente diferente"), Text("Descrição totalmente diferente"), Missing, None)
  const TestPool: seq<Issue> :=
    [Issue("NAME-1", Some(TestReference)), Issue("NAME-2", Some(TestSimilar)), Issue("NAME-3", Some(TestDifferent))]

  /** Two texts, together `t > 0` long, that match in `n / 2` characters score `n / t`. */
  lemma RatioFromMatched(a: string, b: string, n: nat, t: nat)
    requires 2 * Matched(a, b) == n && |a| + |b| == t && t > 0
    ensures Ratio(a, b) == n as real / t as real
  {
  }

  /**
   * The scores of the unit test's two candidates from the lengths of the
   * compared texts (44 + 60 and 44 + 61 characters together) and their
   * matched totals: 88/104 and 58/105.
   */
  lemma TestScores(r: string, s: string, d: string)
    requires |r| + |s| == 104 && |r| + |d| == 105
    requires Matched(r, s) == 44 && Matched(r, d) == 29
    ensures Ratio(r, s) == 88 as real / 104 as real
    ensures Ratio(r, d) == 58 as real / 105 as real
  {
    RatioFromMatched(r, s, 88, 104);
    RatioFromMatched(r, d, 58, 105);
  }

  /** How the unit test's two scores compare with each other and with the thresholds 0.5 and 0.6. */
  lemma TestScoresCompare()
    ensures 88 as real / 104 as real > 58 as real / 105 as real >= 0.5
    ensures 58 as real / 105 as real < 0.6 <= 88 as real / 104 as real
  {
  }

  /** The compared texts of the unit test's issues are 44, 60 and 61 characters long. */
  lemma TestTextLengths()
    ensures |IssueText(Some(TestReference))| == 44
    ensures |IssueText(Some(TestSimilar))| == 60
    ensures |IssueText(Some(TestDifferent))| == 61
  {
  }

  /**
   * The repository's unit test, `find_similar_tasks('NAME-1', 0.5, 10)` on
   * its three issues. The reference's text matches NAME-2's in 44 characters
   * and NAME-3's in 29, the totals of their matching blocks. Then NAME-3
   * scores 58/105, at least 0.5, and the result holds NAME-2 and NAME-3:
   * two entries where the test expects one.
   */
  lemma UnitTestScenario()
    requires Matched(IssueText(Some(TestReference)), IssueText(Some(TestSimilar))) == 44
    requires Matched(IssueText(Some(TestReference)), IssueText(Some(TestDifferent))) == 29
    ensures var refText := IssueText(Some(TestReference));
      FindSimilar("NAME-1", Object(Some(TestReference)), Object(Some(TestPool)), 0.5, 10) ==
      Some([EntryFor(refText, TestPool[1]), EntryFor(refText, TestPool[2])])
    ensures |FindSimilar("NAME-1", Object(Some(TestReference)), Object(Some(TestPool)), 0.5, 10).value| == 2
  {
    TestTextLengths();
    TestScores(IssueText(Some(TestReference)), IssueText(Some(TestSimilar)), IssueText(Some(TestDifferent)));
    TestScoresCompare();
    KeyDiffers();
    ScenarioBothKept("NAME-1", TestReference, TestPool[0], TestPool[1], TestPool[2], 0.5, 10);
    assert [TestPool[0], TestPool[1], TestPool[2]] == TestPool;
  }

  /**
   * The unit test at the default threshold 0.6, which NAME-3's 58/105 does
   * not reach: the result is NAME-2 alone, as the test expects.
   */
  lemma UnitTestScenarioAtDefaultThreshold()
    requires Matched(IssueText(Some(TestReference)), IssueText(Some(TestSimilar))) == 44
    requires Matched(IssueText(Some(TestReference)), IssueText(Some(TestDifferent))) == 29
    ensures FindSimilar("NAME-1", Object(Some(TestReference)), Object(Some(TestPool)), 0.6, 10) ==
      Some([EntryFor(IssueText(Some(TestReference)), TestPool[1])])
  {
    TestTextLengths();
    TestScores(IssueText(Some(TestReference)), IssueText(Some(TestSimilar)), IssueText(Some(TestDifferent)));
    TestScoresCompare();
    KeyDiffers();
    ScenarioResult("NAME-1", TestReference, TestPool[0], TestPool[1], TestPool[2], 0.6, 10);
    assert [TestPool[0], TestPool[1], TestPool[2]] == TestPool;
  }

  /** The keys of the unit test: NAME-1 first, the others different from it. */
  lemma KeyDiffers()
    ensures TestPool[0].key == "NAME-1" && TestPool[1].key != "NAME-1" && TestPool[2].key != "NAME-1"
  {
    assert TestPool[1].key[5] != "NAME-1"[5];
    assert TestPool[2].key[5] != "NAME-1"[5];
  }

  /** `FindSimilar` on two successful fetches: the sorted, cut list of the loop's entries. */
  lemma FindSimilarOfObjects(issueKey: string, reference: Fetched<Option<Fields>>, pool: Fetched<Option<seq<Issue>>>,
                             threshold: real, maxResults: int)
    requires reference.Object? && pool.Object? && pool.body.Some?
    ensures FindSimilar(issueKey, reference, pool, threshold, maxResults) ==
      Some(Head(SortBySimilarity(Candidates(issueKey, IssueText(reference.body), threshold, pool.body.value)), maxResults))
  {
  }

  /** The result for a pool of the reference, one issue that scores enough and one that does not. */
  lemma ScenarioResult(issueKey: string, ref: Fields, t0: Issue, t1: Issue, t2: Issue, threshold: real, maxResults: int)
    requires t0.key == issueKey && t1.key != issueKey && maxResults >= 1
    requires Ratio(IssueText(Some(ref)), IssueText(t1.fields)) >= threshold
    requires Ratio(IssueText(Some(ref)), IssueText(t2.fields)) < threshold
    ensures FindSimilar(issueKey, Object(Some(ref)), Object(Some([t0, t1, t2])), threshold, maxResults) ==
      Some([EntryFor(IssueText(Some(ref)), t1)])
  {
    var refText := IssueText(Some(ref));
    var c := Candidates(issueKey, refText, threshold, [t0, t1, t2]);
    assert c == [EntryFor(refText, t1)] by {
      ScenarioCandidates(issueKey, refText, threshold, t0, t1, t2);
    }
    assert SortBySimilarity(c) == c;
    assert Head(c, maxResults) == c;
    FindSimilarOfObjects(issueKey, Object(Some(ref)), Object(Some([t0, t1, t2])), threshold, maxResults);
  }

  /**
   * The result for a pool of the reference and two issues that both score
   * enough, the first one higher: both, in that order.
   */
  lemma ScenarioBothKept(issueKey: string, ref: Fields, t0: Issue, t1: Issue, t2: Issue, threshold: real, maxResults: int)
    requires t0.key == issueKey && t1.key != issueKey && t2.key != issueKey && maxResults >= 2
    requires Ratio(IssueText(Some(ref)), IssueText(t1.fields)) > Ratio(IssueText(Some(ref)), IssueText(t2.fields)) >= threshold
    ensures FindSimilar(issueKey, Object(Some(ref)), Object(Some([t0, t1, t2])), threshold, maxResults) ==
      Some([EntryFor(IssueText(Some(ref)), t1), EntryFor(IssueText(Some(ref)), t2)])
  {
    var refText := IssueText(Some(ref));
    var e1, e2 := EntryFor(refText, t1), EntryFor(refText, t2);
    var c := Candidates(issueKey, refText, threshold, [t0, t1, t2]);
    assert c == [e1, e2] by {
      ScenarioCandidatesBoth(issueKey, refText, threshold, t0, t1, t2);
    }
    assert SortBySimilarity(c) == [e1, e2] by {
      SortPair(e1, e2);
    }
    assert Head([e1, e2], maxResults) == [e1, e2];
    FindSimilarOfObjects(issueKey, Object(Some(ref)), Object(Some([t0, t1, t2])), threshold, maxResults);
  }

  /** A pool of the reference, one issue that scores enough and one that does not keeps the middle one alone. */
  lemma ScenarioCandidates(issueKey: string, refText: string, threshold: real, t0: Issue, t1: Issue, t2: Issue)
    requires t0.key == issueKey && t1.key != issueKey
    requires Ratio(refText, IssueText(t1.fields)) >= threshold
    requires Ratio(refText, IssueText(t2.fields)) < threshold
    ensures Candidates(issueKey, refText, threshold, [t0, t1, t2]) == [EntryFor(refText, t1)]
  {
    var e := EntryFor(refText, t1);
    assert Candidates(issueKey, refText, threshold, [t0, t1]) == [e] by {
      ScenarioFirstTwo(issueKey, refText, threshold, t0, t1);
    }
    assert Candidates(issueKey, refText, threshold, [t0, t1, t2]) == [e] by {
      CandidatesSnoc(issueKey, refText, threshold, [t0, t1], t2);
      assert [t0, t1] + [t2] == [t0, t1, t2];
    }
  }

  /** A pool of the reference and two issues that both score enough keeps both, in pool order. */
  lemma ScenarioCandidatesBoth(issueKey: string, refText: string, threshold: real, t0: Issue, t1: Issue, t2: Issue)
    requires t0.key == issueKey && t1.key != issueKey && t2.key != issueKey
    requires Ratio(refText, IssueText(t1.fields)) >= threshold
    requires Ratio(refText, IssueText(t2.fields)) >= threshold
    ensures Candidates(issueKey, refText, threshold, [t0, t1, t2]) == [EntryFor(refText, t1), EntryFor(refText, t2)]
  {
    var e := EntryFor(refText, t1);
    assert Candidates(issueKey, refText, threshold, [t0, t1]) == [e] by {
      ScenarioFirstTwo(issueKey, refText, threshold, t0, t1);
    }
    assert Candidates(issueKey, refText, threshold, [t0, t1, t2]) == [e, EntryFor(refText, t2)] by {
      CandidatesSnoc(issueKey, refText, threshold, [t0, t1], t2);
      assert [t0, t1] + [t2] == [t0, t1, t2];
    }
  }

  /** The reference itself is skipped and a qualifying issue after it is kept. */
  lemma ScenarioFirstTwo(issueKey: string, refText: string, threshold: real, t0: Issue, t1: Issue)
    requires t0.key == issueKey && t1.key != issueKey
    requires Ratio(refText, IssueText(t1.fields)) >= threshold
    ensures Candidates(issueKey, refText, threshold, [t0, t1]) == [EntryFor(refText, t1)]
  {
    assert Candidates(issueKey, refText, threshold, [t0]) == [] by {
      CandidatesSnoc(issueKey, refText, threshold, [], t0);
      assert [] + [t0] == [t0];
    }
    CandidatesSnoc(issueKey, refText, threshold, [t0], t1);
    assert [t0] + [t1] == [t0, t1];
  }

  /** One more pool issue adds its entry at the end exactly when it qualifies. */
  lemma CandidatesSnoc(issueKey: string, refText: string, threshold: real, init: seq<Issue>, t: Issue)
    ensures Candidates(issueKey, refText, threshold, init + [t]) ==
      Candidates(issueKey, refText, threshold, init) + (if Qualifies(issueKey, refText, threshold, t) then [EntryFor(refText, t)] else [])
  {
    assert (init + [t])[..|init|] == init;
  }

  /**
   * The loop of `find_similar_tasks`: skip the reference, score every other
   * pool issue and append the entries that reach the threshold.
   */
  method CollectCandidates(issueKey: string, refText: string, threshold: real, issues: seq<Issue>)
      returns (similar: seq<SimilarTask>)
    ensures similar == Candidates(issueKey, refText, threshold, issues)
  {
    similar := [];
    for n := 0 to |issues|
      invariant similar == Candidates(issueKey, refText, threshold, issues[..n])
    {
      var task := issues[n];
      assert issues[..n + 1] == issues[..n] + [task];
      CandidatesSnoc(issueKey, refText, threshold, issues[..n], task);
      if task.key == issueKey {
        continue;
      }
      var taskText := IssueText(task.fields);
      var similarity := Ratio(refText, taskText);
      assert Qualifies(issueKey, refText, threshold, task) <==> similarity >= threshold;
      if similarity >= threshold {
        similar := similar + [SimilarTask(task.key, SummaryValue(task.fields), similarity)];
      }
    }
    assert issues[..|issues|] == issues;
  }

  /**
   * `find_similar_tasks`: the two fetches, the loop, the sort and the slice.
   * The fetches are its inputs; see `FindSimilar` for the value it computes.
   */
  method FindSimilarTasks(issueKey: string, reference: Fetched<Option<Fields>>, pool: Fetched<Option<seq<Issue>>>,
                          threshold: real, maxResults: int) returns (result: Option<seq<SimilarTask>>)
    ensures result == FindSimilar(issueKey, reference, pool, threshold, maxResults)
    ensures result.None? <==> !reference.Truthy() || PoolIssues(pool).None?
    ensures result.Some? ==> SortedDesc(result.value)
    ensures result.Some? ==> forall e :: e in result.value ==> e.key != issueKey && e.similarity >= threshold
    ensures result.Some? && maxResults >= 0 ==> |result.value| <= maxResults
  {
    if !reference.Truthy() {
      return None;
    }
    var refText := IssueText(reference.body);
    if !pool.Object? || pool.body.None? {
      return None;
    }
    var similar := CollectCandidates(issueKey, refText, threshold, pool.body.value);
    similar := SortBySimilarity(similar);
    result := Some(Head(similar, maxResults));
    FindSimilarOfObjects(issueKey, reference, pool, threshold, maxResults);
    forall e | e in result.value ensures e.key != issueKey && e.similarity >= threshold {
      ResultEntriesQualify(issueKey, reference, pool, threshold, maxResults, e);
    }
  }
}
