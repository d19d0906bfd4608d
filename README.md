# discord_jira_bot: the similar-issue ranking, verified

The bot answers Discord commands with data from a Jira project (`NAME`).
Its one algorithmic part is `find_similar_tasks`. It takes a reference issue
and the project's issues and scores each of them against the reference with
difflib's `SequenceMatcher.ratio`. It keeps those other than the reference
that score at least a threshold, sorts them by score (highest first, stable)
and returns the first `max_results` of them. This project models that
function, the Ratcliff/Obershelp ratio it calls, and the small pure
expressions that the command handlers use to prepare an issue for display.

Modules:

- `Wrappers`: `Option`.
- `Records`: the JSON shapes the tracker returns.
  - `JsonText` is a string field that is missing, JSON null or a string.
  - `Fetched` is a request that failed, returned `{}`, or returned a non-empty object.
  - It also holds the Python idioms the code reads them through: `dict.get` with a default, f-string rendering of `None`, and `x or ''`.
- `Similarity`: difflib's matching algorithm on character sequences.
  - the longest common block, ties broken by the earliest start in the first text and then in the second;
  - the recursion into the parts left and right of it;
  - the ratio `2*M/T` as an exact real, and `1.0` when both texts are empty.
- `ScoreSort`: `list.sort(key=similarity, reverse=True)` as a stable insertion sort into descending order. Its stability is stated per score value, and it is proved to be the only stable sort.
- `Ranking`:
  - `FindSimilar`, the value `find_similar_tasks` returns;
  - `FindSimilarTasks`, the loop that builds it, proved equal to it;
  - the lemmas about the result.
- `Commands`: key normalisation, description truncation, creation date and assignee name.

The two tracker requests (`get_task_details`, `get_NAME_tasks(100)`) are
inputs of `FindSimilar` and `FindSimilarTasks`, not calls.

`similar_tasks[:max_results]` with a negative `max_results` drops that many
entries from the end, so `|result| <= max_results` holds only for
`max_results >= 0`; `Ranking.Head` models the slice.

## Model

| member | source | states |
|---|---|---|
| Records.Get | src/bot.py:88-89 | `dict.get(name, default)` on a string field: the default when the key is missing, the string when present, and Python `None` exactly when the JSON value is null |
| Records.Fetched.Truthy | src/bot.py:84 | no contract: Python truthiness of a response, where `None` and `{}` are falsy; `Ranking.ResultIsNoneIff` states what it decides |
| Records.Format | src/bot.py:107 | `str(v)` inside the f-string: a string shows as itself and `None` as the text `None` |
| Records.OrEmpty | src/bot.py:106 | `v or ''`: a string stays itself and `None` becomes `''` |
| Records.SummaryValue | src/bot.py:105 | `fields.get('summary', '')`: the summary string when present, `''` when the key or the whole `fields` object is missing, and `None` exactly when the summary is JSON null |
| Records.DescriptionText | src/bot.py:106 | `fields.get('description', '') or ''`: the description string when present, `''` when it is missing, null, or there are no `fields` |
| Records.IssueText | src/bot.py:105-107 | the compared text is summary, one space, description; a missing summary contributes nothing, a null one the text `None`; a missing or null description adds nothing; an issue without `fields` compares as `" "` |
| Similarity.Run | src/bot.py:110 | the run of equal characters starting at a pair of positions is a match, and it stops only at a mismatch or at a range end |
| Similarity.RunIsMaximal | src/bot.py:110 | every match starting at that pair is at most as long as the run |
| Similarity.Scan | src/bot.py:110 | no contract: the double loop of `find_longest_match`, visiting positions row by row and keeping the first strictly longer run; `Similarity.ScanKeepsBest` states what it returns |
| Similarity.ScanStep | src/bot.py:110 | visiting one more position keeps the scan's invariant: the best block so far is a common block that no earlier run beats, with difflib's tie-break |
| Similarity.ScanNextRow | src/bot.py:110 | moving from the end of a row to the start of the next keeps that invariant |
| Similarity.ScanFinished | src/bot.py:110 | past the last row, no run at any position of the two ranges beats the best block |
| Similarity.ScanKeepsBest | src/bot.py:110 | the row-major scan, started in the invariant, ends with a common block that no run beats and that loses ties to none starting earlier |
| Similarity.ScanIsLongest | src/bot.py:110 | the completed scan is a longest match with difflib's tie-break |
| Similarity.LongestMatch | src/bot.py:110 | `find_longest_match` returns a block inside both ranges whose two sides begin with the same character when it is not empty |
| Similarity.LongestMatchIsLongest | src/bot.py:110 | `find_longest_match`: a longest common block of the two ranges; among equally long ones, the earliest in the first text, then in the second |
| Similarity.LongestMatchIsUnique | src/bot.py:110 | any block meeting that definition is the one `LongestMatch` returns |
| Similarity.ChainConcat | src/bot.py:110 | blocks to the left of a match, the match, and blocks to its right form an ordered, non-overlapping chain |
| Similarity.MatchingBlocks | src/bot.py:110 | `get_matching_blocks`: an ordered, non-overlapping chain of non-empty common blocks |
| Similarity.Total | src/bot.py:110 | no contract: the sum of the block sizes that `ratio()` takes as M; `Similarity.TotalConcat` and `Similarity.ChainTotalBound` state its properties |
| Similarity.TotalConcat | src/bot.py:110 | the matched length of concatenated block lists is the sum of their lengths |
| Similarity.ChainTotalBound | src/bot.py:110 | a chain never pairs more characters than either range holds |
| Similarity.ChainCoversAll | src/bot.py:110 | a chain that pairs every character of both ranges shows the ranges are equal |
| Similarity.BlockSidesEqual | src/bot.py:110 | the two sides of a common block are equal slices |
| Similarity.Matched | src/bot.py:110 | M, the matched length, is at most the length of either text |
| Similarity.MatchedCoversLongest | src/bot.py:110 | M includes the longest block, and M is 0 exactly when that block is empty |
| Similarity.Ratio | src/bot.py:110 | `ratio()` lies in [0, 1] |
| Similarity.Fraction | src/bot.py:110 | 2M/T is 1 exactly when 2M = T and 0 exactly when M = 0 |
| Similarity.RatioOfIdentical | src/bot.py:110 | a text scores 1 against itself, two empty texts included |
| Similarity.RatioIsOneIff | src/bot.py:110 | the score is 1 exactly when the two texts are equal |
| Similarity.SharedCharacterMatches | src/bot.py:110 | one common character makes M positive |
| Similarity.DisjointTextsMatchNothing | src/bot.py:110 | texts without a common character have M = 0 |
| Similarity.RatioIsZeroIff | src/bot.py:110 | the score is 0 exactly when some text is non-empty and no character occurs in both |
| ScoreSort.Insert | src/bot.py:120 | inserting into a descending list keeps it descending and adds exactly that entry |
| ScoreSort.SortBySimilarity | src/bot.py:120 | the sorted list is in descending similarity order and is a permutation of the input |
| ScoreSort.InsertKeepsTies | src/bot.py:120 | an inserted entry goes in front of the entries with its score, so their order is kept |
| ScoreSort.SortIsStable | src/bot.py:120 | for every score, the entries with that score keep their input order, as Python's stable `sort(reverse=True)` does |
| ScoreSort.SortedTiesAreUnique | src/bot.py:120 | two descending lists with the same entries per score, in the same order, are equal |
| ScoreSort.SortIsTheStableSort | src/bot.py:120 | any descending list with the input's entries per score in input order is the sorted list: the sort is the stable sort |
| ScoreSort.WithScoreOfPrefix | src/bot.py:120-123 | a prefix keeps, per score, a prefix of that score's entries |
| ScoreSort.SortPair | src/bot.py:120 | two entries already in descending order stay as they are |
| Ranking.EntryFor | src/bot.py:113-117 | no contract: the dict appended for a kept issue, with its key, summary and score; `Ranking.ResultEntriesQualify` states what the entries hold |
| Ranking.Qualifies | src/bot.py:102-112 | no contract: an issue is kept when its key is not the reference's and its score reaches the threshold; `Ranking.CandidatesSound` and `Ranking.CandidatesComplete` connect it to the loop |
| Ranking.PoolIssues | src/bot.py:94 | no contract: the `issues` of a truthy search response that has them; `Ranking.ResultIsNoneIff` states when the result is `None` |
| Ranking.Head | src/bot.py:123 | `s[:n]` is a prefix of `s`; its length is `min(n, len(s))` for `n >= 0`, and `max(len(s) + n, 0)` for negative `n` |
| Ranking.Candidates | src/bot.py:100-117 | the loop appends at most one entry per pool issue |
| Ranking.FindSimilar | src/bot.py:81-123 | a returned list never has more entries than the pool has issues, and has at most `max_results` when that is non-negative |
| Ranking.CandidatesSound | src/bot.py:100-117 | every entry the loop appends belongs to a pool issue other than the reference that scores at least the threshold |
| Ranking.CandidatesComplete | src/bot.py:100-117 | every such pool issue has its entry in the loop's list |
| Ranking.ResultIsNoneIff | src/bot.py:83-95 | the result is `None` exactly when the reference fetch is falsy (`None` or `{}`), or the pool response is falsy or has no `issues`; otherwise it is a list |
| Ranking.ResultEntriesQualify | src/bot.py:100-117 | every returned entry has a key other than the reference's and a similarity at least the threshold; its key, summary and similarity are those of a pool issue |
| Ranking.ResultExcludesReference | src/bot.py:100-103 | the reference's own key never appears in the result, whatever the pool holds |
| Ranking.ResultIsBoundedPrefix | src/bot.py:119-123 | the result is a prefix of the full sorted list, `min(max_results, all)` long; when at most `max_results` issues qualify it is all of them |
| Ranking.ResultIsSortedAndStable | src/bot.py:119-123 | the result is sorted by similarity, highest first, and per score it holds the first qualifying issues in pool order |
| Ranking.ZeroThresholdKeepsOthers | src/bot.py:112 | with threshold 0 every pool issue other than the reference is in the result when the pool fits in `max_results` |
| Ranking.ScenarioFirstTwo | src/test_bot.py:73-118 | the reference at the head of the pool is skipped and a qualifying issue after it is kept |
| Ranking.ScenarioCandidates | src/test_bot.py:73-118 | in a pool of the reference, an issue scoring enough and one that does not, the loop keeps only the middle one |
| Ranking.ScenarioCandidatesBoth | src/test_bot.py:73-118 | in a pool of the reference and two issues that both score enough, the loop keeps both in pool order |
| Ranking.ScenarioResult | src/test_bot.py:73-118 | for the first pool, with room for one result, the result is exactly the middle issue's entry |
| Ranking.ScenarioBothKept | src/test_bot.py:73-118 | for the second pool, with room for two results and the first one scoring higher, the result is both entries, higher first |
| Ranking.UnitTestScenario | src/test_bot.py:73-118 | with pool NAME-1, NAME-2, NAME-3 and reference NAME-1, threshold 0.5 and at most 10 results, given matched totals 44 (NAME-2) and 29 (NAME-3), the result is NAME-2 then NAME-3: two entries |
| Ranking.UnitTestScenarioAtDefaultThreshold | src/bot.py:81 | the same pool at the default threshold 0.6 gives NAME-2 alone |
| Ranking.CollectCandidates | src/bot.py:100-117 | the loop with `continue` and the append builds exactly the list `Candidates` describes |
| Ranking.FindSimilarTasks | src/bot.py:81-123 | the loop with `continue`, the append, the sort and the slice compute `FindSimilar`; the result is `None` exactly on a failed fetch, sorted descending, free of the reference, every entry at least the threshold, and at most `max_results` long when that is non-negative |
| Commands.StartsWith | src/bot.py:171 | no contract: `str.startswith`, the first `len(p)` characters equal `p`; `Commands.NormalizeKey` is stated through it |
| Commands.NormalizeKey | src/bot.py:171-172 | the key starts with `NAME-`; a key that already does is unchanged; any other gets `NAME-` in front |
| Commands.NormalizeKeyIdempotent | src/bot.py:244-245 | normalising twice is normalising once |
| Commands.NormalizeKeyOfNumber | src/bot.py:244-245 | a bare issue number `n` becomes `NAME-n` |
| Commands.TruncateDescription | src/bot.py:192 | a description of at most 2000 characters is unchanged; a longer one becomes its first 2000 characters followed by `...`; the result is at most 2003 long |
| Commands.TruncateDescriptionShape | src/bot.py:192 | the shown text starts with the first `min(len, 2000)` characters, and it is those plus `...` exactly when the description is longer than 2000 |
| Commands.UntilFirst | src/bot.py:188 | `s.split(c)[0]` is a prefix of `s` without `c`, followed in `s` by `c` or by the end |
| Commands.UntilFirstOf | src/bot.py:188 | a part without `c`, then `c` or nothing, splits into exactly that part |
| Commands.CreatedDate | src/bot.py:188 | `created.split('T')[0]` of a non-empty timestamp: a prefix of it without `T`, followed in it by `T` or by its end; `Data desconhecida` for a missing, null or empty one |
| Commands.CreatedDateOfTimestamp | src/bot.py:188 | a timestamp `date` + `T` + `time` shows as `date`; a missing, null or empty one as `Data desconhecida` |
| Commands.AssigneeNameIsRecordedOrDefault | src/bot.py:157 | the name shown is `Não atribuído` exactly when there is no assignee, it has no `displayName`, or that name is `Não atribuído` itself |
| Commands.AssigneeName | src/bot.py:157 | no assignee, or one without `displayName`, shows as `Não atribuído`; a present name shows as itself; a null name is Python `None` |
| Commands.StatusDescriptionAsWritten | src/bot.py:185-192 | the status command's description as written: `Sem descrição` when missing, the truncated text of a string description, and a `TypeError` (`None`) exactly when the description is JSON null |
| Commands.StatusDescription | src/bot.py:185-192 | the corrected description: `Sem descrição` when missing or null, otherwise the truncated text, at most 2003 long |
| Commands.StatusDescriptionAgrees | src/bot.py:185-192 | the corrected description equals the one as written wherever that one does not raise, and differs only on a null description |

## Left out

- I/O: the Discord bot, its commands, embeds and messages; the HTTP requests and their authentication; logging; `datetime.now()`. The fetches `find_similar_tasks` makes are inputs of the model.
- `get_NAME_tasks` and `get_tasks_by_status` only build a query string for the network and are not modelled.
- Ratio: uses exact reals instead of Python floats. Comparisons with the threshold are exact, not rounded. The display percentage `int(similarity*100)` is not modelled.
- Ratio: difflib's `autojunk` heuristic is not modelled. It treats frequent characters as junk when the second text has 200 or more characters, so for such texts the model gives the plain Ratcliff/Obershelp score.
- MatchingBlocks: does not merge adjacent blocks or append the final sentinel. Neither changes the matched total that the ratio uses. It is written as direct recursion where difflib uses a queue; the blocks it finds are the same.
- Ratio: no symmetry lemma. difflib's tie-break makes `ratio(a, b)` and `ratio(b, a)` differ in general.
- Ranking.UnitTestScenario: takes the matched totals of the unit test's texts as hypotheses instead of evaluating the longest-match scan on texts of 44, 60 and 61 characters, which is beyond what the verifier computes here. Worked out by hand, the blocks of NAME-1's text against NAME-3's, as (position in the first, position in the second, length), are (0, 0, 7) `Tarefa `, (8, 19, 2) `e `, (11, 24, 1) `e`, (13, 28, 13) `te Descrição `, (29, 43, 2) `ta`, (31, 56, 2) `re` and (39, 59, 2) `te`: M = 29 of T = 105. Against NAME-2's text the blocks (0, 0, 16), (16, 24, 9) and (25, 41, 19) give M = 44 of T = 104.
- Ranking.UnitTestScenarioAtDefaultThreshold: takes the same two matched totals as hypotheses.
- FindSimilarTasks: does not model the crashes of the original on a pool issue without a `key`, on `fields` set to JSON null, or on `issues` set to JSON null.
  - `Issue.fields == None` stands for a missing `fields` object, which the code reads as `{}`.
- FindSimilarTasks: the in-place `similar_tasks.sort(...)` is modelled as rebinding the list to its sorted value; nothing else holds that list.
- Records.Format: the summary is rendered through `str`, so a JSON null summary compares as the text `None`. A non-string JSON value (a number, an object) is not modelled.
- The `find_similar` handler fetches the reference a second time and can crash when that fetch fails. That is presentation and not modelled.
- `list_tasks` and `check_status` read `summary` and `status.name` unguarded. Only the assignee, description and creation-date expressions they contain are modelled.

## Findings

| source | as written | input that shows it | evidently intended | confidence | as-written member | corrected member |
|---|---|---|---|---|---|---|
| src/test_bot.py:110-118 | `find_similar_tasks('NAME-1', 0.5, 10)` is expected to return one result, NAME-2 | the test's three issues: NAME-3's text shares blocks totalling 29 of 105 characters with the reference and scores 58/105, at least 0.5 | NAME-3 below the threshold, as at the default 0.6, so that NAME-2 (88/104) is the only result | medium; matched blocks worked out by hand and taken as hypotheses; not executed | Ranking.UnitTestScenario | Ranking.UnitTestScenarioAtDefaultThreshold |
| src/bot.py:185-192 | `fields.get('description', 'Sem descrição')` returns `None` for a description that is JSON null, and `description[:2000]` then raises `TypeError` | an issue whose `fields.description` is null (Jira's value for an empty description) | show `Sem descrição`, the text used for a missing description | high, not executed | Commands.StatusDescriptionAsWritten | Commands.StatusDescription |
