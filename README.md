# Job listing view: a verified model

This project models the logic of a single-page job-postings viewer
(`JobAnalysis.js`). The page loads an array of job records once. It fills
three filter dropdowns (Level, Type, Skill) with the distinct values found in
the records and lists the jobs. Two buttons act on that list: "Apply Filters"
keeps the jobs that match every dropdown that is not set to "All", and "Sort"
orders the jobs by title, level or posting age. A "View Details" button on a
row swaps the list panel for a detail panel, and "Back" swaps them again.

Modules, one per concern of the script:

- `Wrappers`: the `Option` type.
- `Jobs`: the job record and `jobs.find` by job number.
- `Filtering`: the three-way equality filter with the "All" sentinel.
- `PostedAge`: `extractMinutes`. This is a hand-written matcher for the
  pattern `(\d+)\s*minutes\s*ago`, with leftmost-match semantics, over ASCII
  whitespace. Text with no match gets `Number.MAX_SAFE_INTEGER`. The
  predicate `MatchesWith` states what the pattern means, with no search
  strategy, and lemmas prove that the matcher finds exactly those matches.
- `Ordering`: the string comparator, which stands in for `localeCompare`.
- `Sorting`: `Array.prototype.sort` for a consistent comparator. The
  predicate `IsTotalPreorder` captures consistency. Any two jobs are ordered
  one way or the other, the order is transitive, and the comparator returns
  zero exactly for the pairs that are ordered both ways. ECMAScript leaves the order implementation-defined
  for other comparators. All three comparators of `sortJobs` are consistent
  (`Comparators.CompareByIsTotalPreorder`). `SortSeq` is a stable insertion
  sort written as a function. `StableSort` performs the same
  sort in place on an array, and its contract says it computes `SortSeq`.
- `Comparators`: the three comparators `sortJobs` uses, and what sorting with
  each of them guarantees.
- `Dropdowns`: `Array.from(new Set(jobs.map(...)))`.
- `JobView`: the page as a class. It holds the loaded `jobs`, the two
  `hidden` flags, the rendered rows, the detail record and the dropdown
  options, and has one method per handler. Its invariant `Valid()` states
  that exactly one panel is visible.
- `Scenarios`: two concrete postings and a page session that uses them.

The model follows the code as written, including these behaviours, which a
reader might expect to be otherwise:

- `sortJobs` sorts the full loaded collection. It does not sort the filtered
  list, so an active filter is dropped once the user sorts.
- The "Back" handler only flips the two `hidden` flags. It does not re-render
  the list, so the list shows whatever was last rendered. That may be a
  filter or sort applied while the detail panel was open.
- The sort criteria is a free string. "title", "level" and "posted" sort; any
  other non-empty value re-renders the jobs in load order; an empty selection
  does nothing.
- Records are not validated on load. The data is used as delivered.

## Model

| member | source | states |
|---|---|---|
| `Jobs.Find` | JobAnalysis.js:69 | returns None exactly when no job carries the number; otherwise returns a loaded job with that number |
| `Jobs.FindFirst` | JobAnalysis.js:69 | the job returned is the one at the first index carrying the number |
| `Filtering.Matches` | JobAnalysis.js:93-97 | has no contract of its own. It defines the per-job test: each of level, type and skill is "All" or equal to the job's field. `FilterMembership` states what it means for the result |
| `Filtering.Filter` | JobAnalysis.js:92-98 | the result is never longer than the loaded list, and every job in it passes all three dropdown tests |
| `Filtering.FilterIsSubsequence` | JobAnalysis.js:92-98 | the result is a subsequence of the loaded list, so load order is kept |
| `Filtering.FilterCounts` | JobAnalysis.js:92-98 | a matching job occurs in the result as often as in the loaded list; a non-matching job does not occur |
| `Filtering.FilterMembership` | JobAnalysis.js:92-98 | a job is in the result if and only if it was loaded and matches level, type and skill |
| `Filtering.FilterAllIsIdentity` | JobAnalysis.js:94-96 | with all three dropdowns on "All", the result is the loaded list unchanged |
| `Filtering.FilterIdempotent` | JobAnalysis.js:92-98 | filtering the result again with the same values changes nothing |
| `Filtering.FilterIsConjunction` | JobAnalysis.js:93-97 | the combined filter equals the Level filter, then the Type filter, then the Skill filter |
| `PostedAge.DecimalValue` | JobAnalysis.js:119 | the value is a natural number. It defines `parseInt(…, 10)` on a digit string, read most significant digit first; `ExtractMinutesOfDigits` and `ExtractMinutesExamples` state its use |
| `PostedAge.MatchAt` | JobAnalysis.js:118 | has no contract of its own. It tries the pattern at one start position using maximal runs; `MatchAtSound`, `MatchAtComplete` and `MatchAtIsPattern` relate it to the pattern's meaning |
| `PostedAge.MatchAtSound` | JobAnalysis.js:118 | where the matcher reports a match, the regular expression matches there, and the value is that of the match's digit group |
| `PostedAge.MatchAtComplete` | JobAnalysis.js:118 | however the regular expression matches at a position, its parts are the maximal digit and whitespace runs, and the matcher reports a match there with that match's digits |
| `PostedAge.MatchSplitUnique` | JobAnalysis.js:118 | two splits of the regular expression at the same position are the same split |
| `PostedAge.MatchAtIsPattern` | JobAnalysis.js:118 | the matcher succeeds at a position if and only if the regular expression matches there |
| `PostedAge.ScanFrom` | JobAnalysis.js:118-119 | the result is never negative. It tries start positions left to right and falls back to MAX_SAFE_INTEGER; `ExtractMinutesLeftmost` and `ExtractMinutesNoMatch` state its result |
| `PostedAge.ExtractMinutes` | JobAnalysis.js:117-120 | the extracted age is never negative |
| `PostedAge.ExtractMinutesLeftmost` | JobAnalysis.js:118-119 | when the pattern matches, the leftmost match's digits, read in base 10, are the result |
| `PostedAge.ExtractMinutesNoMatch` | JobAnalysis.js:119 | text in which the pattern does not occur gets MAX_SAFE_INTEGER |
| `PostedAge.ExtractMinutesFirstMatch` | JobAnalysis.js:118-119 | in terms of the regular expression alone: the leftmost start where it matches decides the result, which is the value of that match's digit group |
| `PostedAge.ExtractMinutesNoPattern` | JobAnalysis.js:119 | in terms of the regular expression alone: text where it matches at no position gets MAX_SAFE_INTEGER |
| `PostedAge.MatchAtMinutesAgo` | JobAnalysis.js:118 | the pattern matches `<digits> minutes ago` at its first character, capturing those digits |
| `PostedAge.ExtractMinutesOfDigits` | JobAnalysis.js:118-119 | `<digits> minutes ago` yields the value of those digits |
| `PostedAge.ExtractMinutesExamples` | JobAnalysis.js:110-111 | "8 minutes ago" gives 8 and "3 minutes ago" gives 3 |
| `PostedAge.ExtractMinutesHours` | JobAnalysis.js:119 | "2 hours ago" gives the sentinel MAX_SAFE_INTEGER |
| `Ordering.StrCompare` | JobAnalysis.js:106 | the comparison result is -1, 0 or 1 |
| `Ordering.StrCompareAntisymmetric` | JobAnalysis.js:106 | swapping the two strings flips the sign of the comparison |
| `Ordering.StrCompareZero` | JobAnalysis.js:108 | two strings compare as equal if and only if they are the same string |
| `Ordering.StrCompareTransitive` | JobAnalysis.js:106 | if a comes no later than b and b no later than c, then a comes no later than c |
| `Sorting.Insert` | JobAnalysis.js:105-111 | has no contract of its own. It defines one stable insertion step: the job moves left past the jobs that compare greater than it. `InsertPermutation`, `InsertSorted`, `InsertStable` and `InsertSplice` state its properties |
| `Sorting.SortSeq` | JobAnalysis.js:105-111 | has no contract of its own. It defines the result of the `.sort` calls; `SortSeqPermutation`, `SortSeqSorted` and `SortSeqStable` state its properties |
| `Sorting.TotalPreorderReflexive` | JobAnalysis.js:105-111 | a consistent comparator returns zero when a job is compared with itself |
| `Sorting.SortSeqPermutation` | JobAnalysis.js:104-111 | sorting adds and drops no job: the result is a permutation of the input |
| `Sorting.SortSeqSorted` | JobAnalysis.js:105-111 | with a total-preorder comparator, every earlier job compares no greater than every later one |
| `Sorting.SortSeqStable` | JobAnalysis.js:105-111 | jobs the comparator calls equal keep their original relative order |
| `Sorting.SortSeqOfSorted` | JobAnalysis.js:105-111 | an input that is already sorted comes back unchanged |
| `Sorting.SortSeqIdempotent` | JobAnalysis.js:105-111 | sorting the result again with the same comparator changes nothing |
| `Sorting.InsertSplice` | JobAnalysis.js:105-111 | an insertion step places the job right after the last job that may precede it |
| `Sorting.InsertionPoint` | JobAnalysis.js:105-111 | finds the position after the last earlier job that may precede the job at index i; every job between it and i compares greater |
| `Sorting.MoveLeft` | JobAnalysis.js:105-111 | moves the job at index i to position j, shifting the jobs in between one place right; the rest of the array is untouched |
| `Sorting.InsertInPlace` | JobAnalysis.js:105-111 | one in-place insertion step: the job moves left past exactly the jobs that compare greater than it; the tail of the array is untouched |
| `Sorting.StableSort` | JobAnalysis.js:105-111 | sorts the array in place, and the final contents are the stable insertion sort of the initial contents |
| `Comparators.CompareBy` | JobAnalysis.js:105-111 | has no contract of its own. It defines the three comparators: ordinal comparison of titles, ordinal comparison of levels, and the difference of the extracted minutes. `CompareByIsTotalPreorder` states that each is a valid sort order |
| `Comparators.CompareByIsTotalPreorder` | JobAnalysis.js:105-111 | the title, level and posted comparators are each consistent: total and transitive, and they return zero exactly for the pairs ordered both ways |
| `Comparators.SortKeepsTiesInOrder` | JobAnalysis.js:105-111 | under each of the three sorts, the jobs the comparator ties keep their load order: equal titles, equal levels, or equal extracted ages, the last of which includes every job whose age text does not match |
| `Comparators.PostedSortNonDecreasing` | JobAnalysis.js:109-111 | under the posted sort, the extracted minutes never decrease along the result |
| `Comparators.PostedUnknownLast` | JobAnalysis.js:109-119 | under the posted sort, no job with unparsable age comes before a job with a parsed age below the sentinel |
| `Dropdowns.Project` | JobAnalysis.js:35-37 | one value per job, in load order, each the job's level, type or skill |
| `Dropdowns.Distinct` | JobAnalysis.js:35-37 | no value occurs twice, and a value is listed if and only if it occurs in the input |
| `Dropdowns.DistinctFirstOccurrenceOrder` | JobAnalysis.js:35-37 | values are listed in the order in which they first occur |
| `Dropdowns.DistinctValues` | JobAnalysis.js:35-37 | a dropdown's options have no duplicates and are exactly the field values of the loaded jobs |
| `Dropdowns.DistinctValuesInLoadOrder` | JobAnalysis.js:35-37 | a dropdown's options follow the order in which each value's first job was loaded |
| `JobView.Render` | JobAnalysis.js:51-64 | has no contract of its own. It defines what the list shows; `RenderSpec` states it |
| `JobView.KeyOf` | JobAnalysis.js:105-112 | has no contract of its own. It maps "title", "level" and "posted" to their sort keys and every other string to none; `SortedViewSpec` states the effect |
| `JobView.SortedView` | JobAnalysis.js:104-112 | has no contract of its own. It defines the sequence `sortJobs` renders; `SortedViewSpec` states its properties |
| `JobView.RowsSpec` | JobAnalysis.js:56-64 | one row per job, in order, each built from that job |
| `JobView.RenderSpec` | JobAnalysis.js:51-64 | an empty list shows only the "No jobs found." placeholder; otherwise one row per job, in order, each carrying that job's number |
| `JobView.SortedViewSpec` | JobAnalysis.js:103-113 | every criteria gives a permutation of the jobs; a recognised one gives a sorted result, any other gives the load order |
| `JobView.JobBoard.constructor` | JobAnalysis.js:14 | the page starts with no jobs. The starting panel state, with the list visible and the detail panel hidden, comes from the page markup, not from the script. The option lists start empty and hold only the values the script appends; the markup's "All" option is not modelled |
| `JobView.JobBoard.RenderJobList` | JobAnalysis.js:50-65 | the list becomes the rendering of the given jobs; nothing else changes |
| `JobView.JobBoard.PopulateDropdown` | JobAnalysis.js:40-47 | appends the given values, in order, to one dropdown; the other dropdowns are unchanged |
| `JobView.JobBoard.PopulateDropdowns` | JobAnalysis.js:34-38 | each dropdown gains the distinct values of its field |
| `JobView.JobBoard.FetchJobs` | JobAnalysis.js:17-31 | on success, the jobs are replaced, the dropdowns filled and the full list rendered; on failure, only the failure message is shown and jobs and dropdowns stay as they were |
| `JobView.JobBoard.ShowJobDetails` | JobAnalysis.js:68-84 | a known number shows its record, makes the detail panel visible and hides the list; an unknown number changes nothing |
| `JobView.JobBoard.BackToList` | JobAnalysis.js:130-133 | the list becomes visible and the detail panel hidden; the rendered list is not touched |
| `JobView.JobBoard.ApplyFilters` | JobAnalysis.js:87-100 | the list becomes the rendering of the filtered jobs; the panels and jobs are unchanged |
| `JobView.JobBoard.SortJobs` | JobAnalysis.js:103-114 | renders the sorted copy of all loaded jobs; `jobs` itself is unchanged |
| `JobView.JobBoard.SortButtonClicked` | JobAnalysis.js:137-142 | with an option selected, it sorts; with an empty selection, nothing changes |
| `JobView.JobBoard.Handle` | JobAnalysis.js:123-142 | each click keeps exactly one panel visible and leaves jobs and dropdowns unchanged. "View Details" has the effect of `ShowJobDetails` on `Find(jobs, id)`, with the list untouched. "Back" shows the list, hides the details and keeps the rows and detail record. "Apply Filters" renders the filtered jobs. "Sort" renders the sorted view for a non-empty selection and changes nothing for an empty one. The last two leave both panels and the detail record unchanged |
| `JobView.JobBoard.HandleAll` | JobAnalysis.js:123-142 | after any sequence of clicks, exactly one panel is visible |
| `Scenarios.SortByTitleScenario` | JobAnalysis.js:105-106 | Bravo then Alpha, sorted by title, gives Alpha then Bravo |
| `Scenarios.SortByPostedScenario` | JobAnalysis.js:109-111 | Bravo (8 minutes) then Alpha (3 minutes), sorted by posted, gives Alpha then Bravo |
| `Scenarios.FilterScenario` | JobAnalysis.js:92-98 | level "Expert" keeps only job "1"; an unknown level gives no jobs and the placeholder row |

## Left out

- Network and JSON parsing (`fetch`, `response.json()`, JobAnalysis.js:17-31): the outcome is a parameter of `FetchJobs`, either the records or a failure. A payload that parses but is not an array of job objects (`{}`, or an array holding `null`) is still assigned to `jobs` before `populateDropdowns` throws. The source then shows the failure message with `jobs` replaced, while the model's `LoadFailed` keeps the old jobs.
- DOM construction (`createElement`, `innerHTML` templates, `appendChild`, option elements): the list is a sequence of abstract rows, the detail panel is the record shown, and a dropdown is a sequence of option values.
- Event-listener registration and the `classList` / `dataset` plumbing: each click is an `Event` value handled by `JobView.JobBoard.Handle`.
- `console.error` logging.
- `Ordering.StrCompare`: `localeCompare` collation depends on the locale. It is modelled as ordinal lexicographic order on characters.
- `PostedAge.ExtractMinutes`: only ASCII whitespace counts as `\s`. The Unicode spaces that JavaScript's `\s` also accepts are not modelled.
- `PostedAge.ExtractMinutes`: `parseInt` works on IEEE doubles. Digit strings beyond 2^53 lose precision. Digit runs longer than about 309 digits become `Infinity`, so two such jobs compare as `Infinity - Infinity`, which is NaN, and the sort treats that as a tie. The model reads every digit run as an exact integer, so it orders such jobs by their exact values.
- `Sorting.StableSort`: the engine's sort algorithm is not visible in the source. The model uses insertion sort. For a total-preorder comparator, its result is the one any stable sort gives.
- `Comparators.PostedUnknownLast`: the "sorts last" property holds only against parsed ages below `MAX_SAFE_INTEGER`. As written, a parsed count of 9007199254740991 or more ties with or sorts after the unparsable ages.
- Records with missing fields make the source throw, for example on `undefined.localeCompare`. The model's records always have all nine fields.
- `Jobs.Find` compares job numbers as strings. If the data gave "Job No" as a JSON number, the source's `===` against the string from `dataset.id` would never match. The model does not represent numeric job numbers.
