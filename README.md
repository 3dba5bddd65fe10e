# ProfileAnalyzer analytics, modelled in Dafny

ProfileAnalyzer is a React front end that looks up a GitHub user and shows insights about their
activity. This project models the part of it that computes those insights:

- the `fetchUserData` handler of the `App` component, which:
  - rejects a blank username;
  - stores the profile and the repositories;
  - counts repositories per language over all repositories;
  - builds the per-day commit histogram and the flat list of commit dates from the first five
    repositories;
  - scans the histogram for the most active day;
  - measures the longest run of consecutive commit days;
- the "Top Languages" panel, which lists five languages, largest count first, each with a rounded
  percentage;
- the commit chart, which turns the histogram into bars sorted by date.

Module layout, one module per file:

- `Wrappers` — `Option`, `Min`, `Max` and three small set lemmas.
- `Counters` — a JavaScript object used as a counter (`Record<string, number>`), kept as a sequence of
  entries in enumeration order. For keys that are not array indices, as here, that is insertion order.
- `Sorting` — `Array.prototype.sort` with a numeric comparator, which is a stable sort by an integer
  key. It is modelled as a stable insertion sort, proved sorted, a permutation and stable.
- `Calendar` — the date key of a timestamp (`split('T')[0]`) and RFC 3339 `full-date` parsing and
  formatting. Also the days-from-civil day number that `new Date(key).getTime()` divides down to, and
  the agreement between string order and day order.
- `GitHubData` — the fields of the GitHub REST API records the analytics read.
- `Languages` — `langData`, counted by a loop proved equal to its specification.
- `Activity` — `commitsByDay` and `commitDates`, built by nested loops proved equal to their
  specification.
- `MostActive` — the strict-`>` scan for the most active day.
- `Streak` — the sort and scan that give the longest streak, proved to return the length of the
  longest run of consecutive commit days.
- `Session` — the `App` state as a class `Dashboard` whose `FetchUserData` method updates its fields.
- `Insights` and `Chart` — the two display-side derivations, as pure functions and lemmas.

Differences between the code and a natural reading of what it should do:

- With no commit dates the streak is 1, not 0: the loop starts both counters at 1.
- A date repeated in the sorted list gives a gap of 0 days. That takes neither branch, so the current
  run is neither extended nor reset.
- Ties for the most active day go to the day first inserted into the histogram, not to the earliest
  date.
- When no commit is collected, `mostActiveDay` keeps the value it had before.
- The shown percentages are rounded one by one, so their sum can exceed 100.
- When the repository request fails, the new profile is stored next to the previous user's repositories and analytics: line 39 has run and line 43 has not.
- The most active day's label is one day early west of UTC. `new Date(maxDay)` is UTC midnight, and `format` prints it in local time, which there is the evening before.

## Model

| member | source | states |
|---|---|---|
| Session.Dashboard.constructor | src/App.tsx:16-24 | the initial state: empty username, repositories, histogram and language counts, no most active day, streak 0, no profile, not loading |
| Session.Dashboard.FetchUserData | src/App.tsx:27-127 | a blank name shows the "Please enter a GitHub username" toast and changes no field; otherwise the name is stored and loading is over on return; a failed profile request shows the error toast and changes no other field; a failed repository request stores only the profile; on success every analytic is stored as `ShowsAnalysis` describes |
| Session.Dashboard.ShowInsights | src/App.tsx:42-119 | stores the repositories, their language counts, the histogram of the collected commit dates, the longest streak, and the most active day; the most active day is updated only when the scan reports one |
| Session.ComputeInsights | src/App.tsx:45-119 | the language counts are the per-repository counts; the histogram tallies the dates collected from the first five repositories; the streak is 1 without commits and otherwise the longest run of consecutive days, at most the number of dates; the reported day is what `if (maxDay)` lets through |
| Session.BlankMeansOnlyWhitespace | src/App.tsx:28 | `username.trim()` is empty exactly when every character of the name is JavaScript whitespace |
| Session.TrimRemovesOuterWhitespace | src/App.tsx:28 | `trim` removes exactly a whitespace prefix and a whitespace suffix: the name is those two runs around the trimmed string |
| Session.TrimmedEndsAreNotWhitespace | src/App.tsx:28 | a non-empty trimmed name neither starts nor ends with whitespace |
| Session.IsJsWhitespace | src/App.tsx:28 | the WhiteSpace and LineTerminator code points `trim` removes; BlankMeansOnlyWhitespace and TrimRemovesOuterWhitespace state their role |
| Session.Trim | src/App.tsx:28 | `String.prototype.trim`: the name with its leading and trailing JavaScript whitespace removed; TrimRemovesOuterWhitespace, TrimmedEndsAreNotWhitespace and BlankMeansOnlyWhitespace state its contract |
| Session.Reported | src/App.tsx:89-94 | `if (maxDay)`: the scanned day and its count, unless the scan found no day or an empty key; MostActiveDayIsReported states when a day is reported and that it is the first maximum |
| Session.MostActiveDayIsReported | src/App.tsx:79-94 | for a histogram of full dates, a day is reported exactly when some date was collected, and the reported day is the first entry holding the largest count |
| Session.HistogramKeysAreDates | src/App.tsx:68-69 | every key of the histogram is one of the collected dates, so it is a full date |
| Session.FullDateIsTruthy | src/App.tsx:89 | a full-date key is never the empty string, so `if (maxDay)` accepts it |
| Languages.HasLanguage | src/App.tsx:48 | `if (repo.language)`: a language that is neither `null` nor empty; LanguageCountIsRepoCount and LanguageKeys state its effect |
| Languages.LanguageCounts | src/App.tsx:46-51 | `langData` once every repository has been visited; LanguageCountIsRepoCount and LanguageKeys state its counts and keys |
| Languages.CountLanguages | src/App.tsx:46-51 | the loop over all repositories produces exactly the specification counter `LanguageCounts` |
| Languages.LanguageCountIsRepoCount | src/App.tsx:46-51 | the count of a language is the number of repositories written in it; the empty language is never counted |
| Languages.LanguageKeys | src/App.tsx:47-49 | a language is a key exactly when some repository has it as a non-empty language |
| Languages.CountStep | src/App.tsx:48-49 | visiting one repository increments its language, if it has a truthy one, and changes nothing else |
| Activity.FirstRepos | src/App.tsx:60 | `repositories.slice(0, 5)`: at most the first five repositories; OnlyFirstFiveRepositoriesCount states that nothing else reaches the dates |
| Activity.RepoDates | src/App.tsx:67-71 | the keys of one repository's commits before its first malformed one; RepoDatesStopAtFirstMalformed states it |
| Activity.FetchedDates | src/App.tsx:63-74 | the per-repository `try`/`catch`: nothing from a failed fetch, otherwise RepoDates; FailedFetchContributesNothing states it |
| Activity.DatesOf | src/App.tsx:62-75 | `commitDates` after visiting the given repositories in order; DatesOfAppend and FailedFetchContributesNothing state its contract |
| Activity.CommitDates | src/App.tsx:57-75 | `commitDates` after visiting the first five repositories; CollectCommits is proved to compute it and OnlyFirstFiveRepositoriesCount states what it depends on |
| Activity.Histogram | src/App.tsx:56-75 | `commitsByDay` after visiting the first five repositories; HistogramMatchesDates states its counts, total and key order |
| Activity.CollectCommits | src/App.tsx:56-75 | the loop over the first five repositories produces exactly the specification date list, and a histogram that tallies it |
| Activity.VisitCommits | src/App.tsx:67-71 | one repository's `forEach` appends the date keys of its commits up to the first malformed one, and keeps the histogram equal to the tally of the dates |
| Activity.RepoDatesStopAtFirstMalformed | src/App.tsx:67-71 | a repository contributes the key of each commit before its first malformed one, in order, and nothing from that commit on |
| Activity.FailedFetchContributesNothing | src/App.tsx:63-74 | a repository whose commit fetch fails adds no date, and the dates of the repositories after it are still collected |
| Activity.OnlyFirstFiveRepositoriesCount | src/App.tsx:60-62 | the dates and the histogram depend only on the first five repositories and their fetches |
| Activity.HistogramMatchesDates | src/App.tsx:56-70 | the histogram counts each date as often as it occurs in the date list, its counts add up to the list's length, and its keys come in first-seen order |
| Activity.DatesOfAppend | src/App.tsx:62-75 | visiting two runs of repositories one after the other gives the dates of the first followed by those of the second |
| Calendar.DateKey | src/App.tsx:68 | `split('T')[0]`: the timestamp up to its first `'T'`; DateKeyIsPrefixBeforeT and DateKeyOfTimestamp state its contract |
| Calendar.DateKeyIsPrefixBeforeT | src/App.tsx:68 | the date key is a prefix of the timestamp without `'T'`, and it stops at the first `'T'` when there is one |
| Calendar.DateKeyOfTimestamp | src/App.tsx:68 | the key of `date + "T" + time` is `date` when `date` holds no `'T'` |
| Calendar.NextDayIsOneDayLater | src/App.tsx:109-112 | the calendar day after a valid date is valid and has the next day number |
| Calendar.ConsecutiveDates | src/App.tsx:109-112 | two valid dates are one day number apart exactly when the second is the day after the first |
| Calendar.DayNumberIsMonotone | src/App.tsx:98-99 | an earlier calendar date has a smaller day number |
| Calendar.DayNumberIsInjective | src/App.tsx:98-99 | distinct valid dates have distinct day numbers |
| Calendar.ParseFormatRoundTrip | src/App.tsx:98 | formatting a valid date as `YYYY-MM-DD` and reading it back gives the same date |
| Calendar.FourDigitsRoundTrip | src/App.tsx:98 | four decimal digits read and written back are unchanged |
| Calendar.FullDateOrderIsDayOrder | src/components/CommitChart.tsx:14 | for `YYYY-MM-DD` keys, a smaller day number is the same as a smaller string in code-unit order |
| MostActive.ScanCounts | src/App.tsx:80-88 | the pair `maxDay`, `maxCount` after the first `n` entries; ScanKeepsFirstMaximum and ScanFindsFirstMaximum state it is the first maximum |
| MostActive.FindMostActiveDay | src/App.tsx:80-88 | the loop ends holding the pair of the specification scan `ScanCounts` over every entry |
| MostActive.ScanKeepsFirstMaximum | src/App.tsx:80-88 | after any number of entries the scan holds their largest count; it holds no day exactly when all of them are 0; otherwise it holds the first of them with that count |
| MostActive.ScanFindsFirstMaximum | src/App.tsx:80-88 | the whole scan finds no day exactly when every count is 0, and otherwise the first entry holding the largest count |
| MostActive.FirstMaximumIsUnique | src/App.tsx:84 | the first maximum is unique, so the strict `>` fixes the answer |
| MostActive.MostActiveDayExistsUnlessEmpty | src/App.tsx:69 | a histogram with positive counts has all counts 0 exactly when it is empty |
| Counters.Increment | src/App.tsx:69 | `record[k] = (record[k] \|\| 0) + 1` raises the count of `k` by one and leaves every other count alone; a new key is enumerated last; the total grows by one |
| Counters.Keys | src/components/CommitChart.tsx:11 | the key order of `Object.entries`: one key per entry, in entry order, as its own ensures states |
| Counters.Get | src/App.tsx:69 | `record[k] \|\| 0`: the count under `k`, 0 when absent; Increment and TallyCounts state how it changes and what it counts |
| Counters.Tally | src/App.tsx:69-70 | the counter after incrementing each key in turn from `{}`; TallyCounts states its counts, total and key order |
| Counters.Total | src/components/InsightsSection.tsx:33 | `Object.values(record).reduce((sum, count) => sum + count, 0)`: the sum of the counts; TallyCounts and EntryAtMostTotal state its contract |
| Counters.IncrementKeepsKeysDistinct | src/App.tsx:49 | incrementing never stores a key twice |
| Counters.TallyCounts | src/App.tsx:69-70 | counting keys one by one gives distinct positive entries, each key counted as often as it occurs, counts summing to the number of keys, keys in first-seen order |
| Counters.FirstOccurrences | src/App.tsx:83 | the enumeration order holds exactly the keys counted |
| Streak.TimeOf | src/App.tsx:98 | `new Date(key).getTime()` for a `YYYY-MM-DD` key: the UTC midnight of its day number; TimesAreMidnights and FullDateOrderIsDayOrder state its contract |
| Streak.Times | src/App.tsx:98 | `commitDates.map(date => new Date(date).getTime())`: one time value per date, in order, each that date's `TimeOf` |
| Streak.Abs | src/App.tsx:109 | `Math.abs` on integers; GapInDays states the gap it gives between midnights |
| Streak.CeilDiv | src/App.tsx:110 | `Math.ceil(n / d)` for a non-negative `n`; GapInDays states it gives the difference in days |
| Streak.ScanSorted | src/App.tsx:101-118 | over ascending midnights the loop returns at least 1, exactly 1 when there are none, and otherwise the longest run of consecutive days, at most the number of timestamps |
| Streak.LongestStreak | src/App.tsx:96-119 | sorting the timestamps and scanning them gives 1 without dates, and otherwise the longest run of consecutive commit days |
| Streak.Advance | src/App.tsx:104-117 | one turn of the loop keeps the scan invariant for a gap of 1, of more than 1, and of 0 (repeated day) |
| Streak.RepeatStep | src/App.tsx:112-117 | a repeated day neither extends nor resets the run |
| Streak.LongestRunOfPermutation | src/App.tsx:97-99 | the longest run depends only on which timestamps occur, so sorting does not change it |
| Streak.LongestRunIsUnique | src/App.tsx:119 | two longest-run lengths of the same timestamps are equal |
| Streak.LongestRunFitsDistinctDates | src/App.tsx:97-119 | the longest run never exceeds the number of distinct commit dates |
| Streak.LongestRunFitsDistinctDays | src/App.tsx:97-119 | the longest run never exceeds the number of distinct timestamps |
| Streak.RunIsAllPresent | src/App.tsx:112-114 | a run of `len` days from `start` means each of those days has a commit |
| Streak.GapInDays | src/App.tsx:109-110 | between two midnights, `diffDays` (the absolute millisecond difference divided by 86400000, rounded up) is the difference of their day numbers |
| Sorting.SortBy | src/components/InsightsSection.tsx:29 | the comparator sort returns its input ordered by the key, as a permutation |
| Sorting.SortByIsStable | src/components/InsightsSection.tsx:29 | elements with the same key keep their original relative order |
| Insights.ByCountDescending | src/components/InsightsSection.tsx:29 | the key of the comparator `b[1] - a[1]`: ascending by it is descending by count; TopLanguages and HiddenLanguagesAreNotLarger state the order it gives |
| Insights.TopLanguages | src/components/InsightsSection.tsx:28-30 | at most five rows, all five when there are that many languages, none exactly when there are none (the "No language data available" branch, line 51); counts non-increasing; rows taken from the language counts |
| Insights.HiddenLanguagesAreNotLarger | src/components/InsightsSection.tsx:28-30 | a language left out has a count no larger than any listed one, and languages are left out only when there are more than five |
| Insights.FewSortedLanguagesAreListedAsTheyAre | src/components/InsightsSection.tsx:29-30 | at most five languages already in descending order are listed in that same order |
| Insights.Percentage | src/components/InsightsSection.tsx:54 | half-up integer rounding of 100·bytes/totalBytes, 0 for a zero total; PercentageRounds states it, and PercentageExtremes, PercentageAtMostHundred and PercentageIsMonotone its consequences |
| Insights.PercentageRounds | src/components/InsightsSection.tsx:54 | the percentage is the integer nearest to `100 * bytes / totalBytes`, a tie going up, and 0 when the total is 0 |
| Insights.PercentageExtremes | src/components/InsightsSection.tsx:54 | a count of 0 is 0% and a count equal to a positive total is 100% |
| Insights.PercentageAtMostHundred | src/components/InsightsSection.tsx:54 | a count no larger than the total is at most 100% |
| Insights.PercentageIsMonotone | src/components/InsightsSection.tsx:54 | a larger count never has a smaller percentage |
| Insights.ShownPercentages | src/components/InsightsSection.tsx:33-54 | one percentage per listed row, each taken against the total over all languages |
| Insights.ShownPercentagesAtMostHundred | src/components/InsightsSection.tsx:54-69 | every listed row's percentage, the width of its bar, is at most 100, since a listed count never exceeds the total over all languages |
| Counters.EntryAtMostTotal | src/components/InsightsSection.tsx:33 | no single entry of the counter holds more than the `reduce` total of all its counts |
| Insights.ShownPercentagesCanExceedHundred | src/components/InsightsSection.tsx:33-54 | five languages with counts 4, 1, 1, 1, 1 are shown as percentages summing to 102 |
| Chart.Points | src/components/CommitChart.tsx:11-13 | `.map(([date, count]) => ({ date, count }))`: one bar per entry, in entry order, with that entry's date and count |
| Chart.PointTime | src/components/CommitChart.tsx:14 | the comparator key `new Date(date).getTime()` of a bar; ChartDataIsChronological states the order it gives |
| Chart.ShowsChart | src/components/CommitChart.tsx:41 | `chartData.length > 0`; ChartShownIffCommits states when it holds |
| Chart.ChartData | src/components/CommitChart.tsx:11-14 | one bar per histogram entry, each with a full-date key |
| Chart.ChartHasEveryDay | src/components/CommitChart.tsx:11-13 | each `{date, count}` bar occurs as often as the entry `date: count` in the histogram |
| Chart.ChartDataIsChronological | src/components/CommitChart.tsx:14 | a later bar is never on an earlier day, nor an earlier string |
| Chart.ChartShownIffCommits | src/components/CommitChart.tsx:41-67 | for the histogram of `fetchUserData`, the chart is drawn exactly when a commit date was collected, and the placeholder otherwise |

## Left out

- HTTP: `getUserProfile`, `getUserRepos` and `getCommits` are parameters. The profile and the repository list are `Option` values, with `None` for a request that throws. The commit fetch is a function from repository name to `Option` of commits. The 30-day window and `per_page` of src/lib/githubAPI.ts are not part of this model.
- Asynchrony: the order of `await`s is the order of the model's steps. React's batched state updates are modelled as direct field writes, and `setIsLoading(true)` followed by `setIsLoading(false)` is modelled as a flag that is false on return.
- Toasts and `console.error`: a toast is the returned `notice` string; console output is not modelled.
- The `format(new Date(maxDay), 'EEEE, MMM d')` label of the most active day depends on the local time zone: `new Date(maxDay)` is UTC midnight and `format` prints it in local time. The model stores the raw date key instead.
- The chart's axis and tooltip labels (`format(parseISO(date), …)`, src/components/CommitChart.tsx:21,47) are left out as rendering. They read the key as local midnight of the same day, so they do not depend on the time zone.
- Percentage: `Math.round((bytes / totalBytes) * 100)` on floating point is modelled as the exact half-up rounding `(200·bytes + totalBytes) div (2·totalBytes)`. Floating-point error at exact halves is not modelled.
- Session.ComputeInsights: requires every collected date key to be an RFC 3339 `full-date` (`YYYY-MM-DD`), which is what GitHub author timestamps carry before their `T`. The model covers `YYYY-MM-DD` keys only. The other ECMAScript date-only forms (`YYYY`, `YYYY-MM`, expanded years such as `+002024-01-05`) are also read as UTC midnights but are not modelled. Keys that are not ISO dates give `NaN` or engine-dependent time values. Session.Dashboard.ShowInsights, Session.Dashboard.FetchUserData, Chart.ChartData and Chart.ChartShownIffCommits carry the same requirement.
- Counters.Keys: enumeration order is insertion order. JavaScript enumerates integer-like keys first in ascending order, which cannot happen for date keys and is not modelled for language names.
- Streak.LongestStreak: the streak is stated as the length of the longest run of consecutive days present among the timestamps (`IsLongestRun`), not as a closed-form function.
- Milliseconds: `Math.abs`, `Math.ceil` and the `Date` time value are modelled exactly on integers; timestamps are midnights `day * 86400000`.
- Rendering: the JSX of `App`, `InsightsSection`, `CommitChart`, `RepoCard` and `SkeletonLoader`, the colour lookups, the `inputUsername` field and `handleSubmit` are not part of this model.
