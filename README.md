# UniTracker client logic in Dafny

UniTracker is a web application in which a signed-in student keeps a list of
university applications. Each record holds a name, country, deadline,
scholarship percentage, application fee, notes and one of five statuses. This
project models the logic of the three client pages that work on that list,
and proves properties about it:

- **Dashboard** (`Dashboard.dfy`). The page holds the list and a loading flag.
  `fetchUniversities` fills the list, `handleDelete` deletes a record after
  the user confirms, and the page derives per-status counts and each status's
  icon and badge colour. The page is a class whose fields the handlers
  update.
- **Analytics** (`Analytics.dfy`). Derived values over the same list:
  - the total of the fees, the average and the maximum scholarship;
  - a per-country tally built by an in-place `reduce`, modelled as a method
    with a loop;
  - the five most frequent countries;
  - the five nearest future deadlines, each with its whole days left and an
    urgency flag;
  - the width of each status bar.
- **Add form** (`AddUniversity.dfy`). The form's initial contents, the status
  choices and the one-field update behind every input. The submit handler is
  modelled twice: as the ordered list of effects it produces (state updates,
  the insert request, the navigation) and as a method on the page's state.
  One lemma ties the two together.

`Records.dfy` holds the record type and the per-status counts both pages
compute. `StableSort.dfy` holds the sort used for the top-countries and
upcoming-deadlines panels. The language guarantees that `Array.prototype.sort`
is stable, so it is modelled as a stable insertion sort by an integer key.
Stability and sortedness are proved, so the model has the one output such a
sort can give.

Backend calls (authentication, select, insert, delete), the confirmation
dialog, the clock and `parseFloat` are inputs to the model. Each handler takes
the outcome of the call it awaits as a parameter.

`handleDelete` removes the row from the list only after the backend reports
success (`src/app/dashboard/page.tsx:61-65`).

## Model

| member | source | states |
|---|---|---|
| Records.StatusName | src/lib/supabase.ts:17 | the text of each of the five `status` values; it has no contract of its own, and `AddUniversity.StatusOptionsAreExactlyTheStatuses` states that the names are distinct |
| Records.CountStatus | src/app/dashboard/page.tsx:103-107 | a status count never exceeds the list length |
| Records.CountStatusIsNumberOfRecords | src/app/dashboard/page.tsx:103-107 | each `filter(...).length` count is the number of positions that hold a record with that status |
| Records.PositionsWithSnoc | src/app/dashboard/page.tsx:103-107 | helper for `CountStatusIsNumberOfRecords`: the matching positions of a list are those of all but its last record, plus the last position when that record matches |
| Records.StatusCountsPartition | src/lib/supabase.ts:17 | every record has exactly one of the five statuses, so the five counts add up to the list length |
| Records.StatusStats | src/app/dashboard/analytics/page.tsx:48-55 | `total` is the list length; each status field is the number of records with that status; the five status fields sum to `total` |
| StableSort.SortBy | src/app/dashboard/analytics/page.tsx:71 | the sort output is a permutation of its input, of the same length |
| StableSort.Insert | src/app/dashboard/analytics/page.tsx:71 | helper for `SortBy`: inserting one element adds exactly it to the multiset and one to the length |
| StableSort.SortByIsSorted | src/app/dashboard/analytics/page.tsx:76 | the sort output is in non-decreasing key order, as the comparator `key(a) - key(b)` asks |
| StableSort.InsertKeepsOrder | src/app/dashboard/analytics/page.tsx:76 | helper for `SortByIsSorted`: inserting into a sorted sequence keeps it sorted |
| StableSort.SortByIsStable | src/app/dashboard/analytics/page.tsx:71 | elements with equal keys keep their input order (the sort is stable) |
| StableSort.WithKey | src/app/dashboard/analytics/page.tsx:71 | the elements of one key in their order, the view in which stability is stated; its contract bounds only its length |
| StableSort.WithKeyOfInsert | src/app/dashboard/analytics/page.tsx:71 | helper for `SortByIsStable`: an insert puts the new element ahead of every element of its own key |
| StableSort.WithKeyOfPrefix | src/app/dashboard/analytics/page.tsx:72 | helper: keeping a prefix keeps a prefix of each key's elements |
| StableSort.Take | src/app/dashboard/analytics/page.tsx:72 | `slice(0, n)` has length `min(len, n)` and keeps the first elements in place |
| StableSort.TakeOfSortedIsSmallest | src/app/dashboard/analytics/page.tsx:76-77 | after sorting, no element that `slice` cuts has a smaller key than an element it keeps |
| Analytics.SumOf | src/app/dashboard/analytics/page.tsx:58-60 | the left-to-right `reduce((sum, u) => sum + f(u), 0)`; it has no contract of its own, and `SumOfAppend`, `SumOfDominatesTerms`, `SumOfBoundedAbove` and `SumOfBoundedBelow` state its properties |
| Analytics.SumOfAppend | src/app/dashboard/analytics/page.tsx:58 | a `reduce` sum over a concatenated list is the sum of the two parts' sums |
| Analytics.SumOfDominatesTerms | src/app/dashboard/analytics/page.tsx:58 | when no term is negative, the sum is non-negative and at least every term |
| Analytics.SumOfBoundedAbove | src/app/dashboard/analytics/page.tsx:60 | when every term is at most `m`, the sum is at most `length * m` |
| Analytics.SumOfBoundedBelow | src/app/dashboard/analytics/page.tsx:60 | when every term is at least `m`, the sum is at least `length * m` |
| Analytics.TotalFees | src/app/dashboard/analytics/page.tsx:58 | the fee total of an empty list is 0; with no negative fee it is non-negative and at least every single fee |
| Analytics.TotalFeesAppend | src/app/dashboard/analytics/page.tsx:58 | the fee total of two joined lists is the sum of their totals |
| Analytics.AvgScholarship | src/app/dashboard/analytics/page.tsx:59-61 | the average scholarship of an empty list is 0 |
| Analytics.AvgScholarshipIsMean | src/app/dashboard/analytics/page.tsx:59-61 | for a non-empty list, the average times the length equals the sum of the percentages |
| Analytics.AvgScholarshipAtMostMax | src/app/dashboard/analytics/page.tsx:59-62 | for every list the average never exceeds `maxScholarship`; for the empty list both are 0 |
| Analytics.AvgScholarshipAtMost | src/app/dashboard/analytics/page.tsx:59-61 | helper for `AvgScholarshipAtMostMax`: if the sum is at most `length * m`, the average is at most `m` |
| Analytics.AvgScholarshipNonNegative | src/app/dashboard/analytics/page.tsx:59-61 | the average is not negative when no percentage is |
| Analytics.QuotientAtMost | src/app/dashboard/analytics/page.tsx:60 | arithmetic helper for the division at this line: dividing a sum of at most `n * m` by `n > 0` gives at most `m` |
| Analytics.MaxScholarship | src/app/dashboard/analytics/page.tsx:62 | `Math.max(...ps, 0)` is at least 0 and at least every percentage, and it is either 0 or one of the percentages |
| Analytics.MaxScholarshipIsAttained | src/app/dashboard/analytics/page.tsx:62 | when some percentage is not negative, the maximum is a value some record holds |
| Analytics.CountCountry | src/app/dashboard/analytics/page.tsx:65-68 | a country's count is at most the list length, and it is 0 exactly when no record has that country |
| Analytics.Countries | src/app/dashboard/analytics/page.tsx:65-68 | the tally's keys are distinct and are exactly the countries that occur in the list |
| Analytics.TallyTotalIsCountsOver | src/app/dashboard/analytics/page.tsx:65-68 | summing a tally's values over its keys equals summing the per-country counts over those keys |
| Analytics.CountsOverSnoc | src/app/dashboard/analytics/page.tsx:66 | one more record adds exactly one to the sum over keys that name its country once |
| Analytics.CountryCountsSumToLength | src/app/dashboard/analytics/page.tsx:65-68 | each record is counted under exactly one country, so the counts add up to the list length |
| Analytics.TallyStep | src/app/dashboard/analytics/page.tsx:66 | counting one more record adds its country to the keys only if it is new, and raises only that country's count, by one |
| Analytics.KeysStep | src/app/dashboard/analytics/page.tsx:66 | loop step of `CountryStats`: after one update the key list is the first-seen countries of one more record |
| Analytics.CountsStep | src/app/dashboard/analytics/page.tsx:66 | loop step of `CountryStats`: after one count update every value is the count of its country over one more record |
| Analytics.CountryStats | src/app/dashboard/analytics/page.tsx:65-68 | the accumulator's keys are the distinct countries in first-seen order, each value is that country's record count, and the values sum to the list length |
| Analytics.TallyOfWholeList | src/app/dashboard/analytics/page.tsx:65-68 | helper for `CountryStats`: once all records are counted, the tally is valid, its keys and values are those of the whole list, and the values sum to its length |
| Analytics.Entries | src/app/dashboard/analytics/page.tsx:70 | `Object.entries` yields one `(country, count)` pair per key, in key order |
| Analytics.ByCountDescending | src/app/dashboard/analytics/page.tsx:71 | the key that makes an ascending sort follow the comparator `b - a`; it has no contract of its own, and `TopCountriesNonIncreasing` states the resulting order |
| Analytics.TopCountries | src/app/dashboard/analytics/page.tsx:70-72 | the panel shows `min(number of countries, 5)` entries |
| Analytics.TopCountriesAreTallyEntries | src/app/dashboard/analytics/page.tsx:70-72 | every shown pair is a country of the tally together with its own count |
| Analytics.TopCountriesNonIncreasing | src/app/dashboard/analytics/page.tsx:71 | the shown counts do not increase down the panel |
| Analytics.TopCountriesKeepLargest | src/app/dashboard/analytics/page.tsx:71-72 | a country that is left out has a count no larger than any country shown |
| Analytics.TopCountriesTiesInFirstSeenOrder | src/app/dashboard/analytics/page.tsx:70-72 | among countries with equal counts, the ones shown come first in first-seen order and stay in that order |
| Analytics.Future | src/app/dashboard/analytics/page.tsx:75 | the filter keeps exactly the records whose deadline is strictly after now |
| Analytics.ByDeadline | src/app/dashboard/analytics/page.tsx:76 | the key of the comparator `time(a) - time(b)`; it has no contract of its own, and `UpcomingAscending` states the resulting order |
| Analytics.FutureMultiplicity | src/app/dashboard/analytics/page.tsx:75 | every record with a future deadline stays as many times as it occurs in the list; every other record is dropped |
| Analytics.FutureKeepsKeyOrder | src/app/dashboard/analytics/page.tsx:75 | for each deadline, the filter keeps the list's records with that deadline in list order when it is after now, and none of them otherwise |
| Analytics.UpcomingDeadlines | src/app/dashboard/analytics/page.tsx:74-77 | the panel shows `min(number of future records, 5)` entries |
| Analytics.UpcomingAreFutureRecords | src/app/dashboard/analytics/page.tsx:74-77 | every shown entry is a record of the list whose deadline is after now |
| Analytics.UpcomingAscending | src/app/dashboard/analytics/page.tsx:76 | the shown deadlines are in ascending order |
| Analytics.UpcomingAreNearest | src/app/dashboard/analytics/page.tsx:74-77 | a future record that is left out has a deadline no earlier than any shown one |
| Analytics.UpcomingTiesInListOrder | src/app/dashboard/analytics/page.tsx:74-77 | records of the list with the same future deadline keep their list order, and the ones shown are the first of them in the list; a deadline not after now shows none |
| Analytics.UpcomingTiesInFilterOrder | src/app/dashboard/analytics/page.tsx:76-77 | helper for `UpcomingTiesInListOrder`: the shown records of one deadline are a prefix of the filtered records of that deadline |
| Analytics.DaysUntil | src/app/dashboard/analytics/page.tsx:227 | the day count is the ceiling of the millisecond gap over one day: `(d-1)*day < gap <= d*day` |
| Analytics.IsUrgent | src/app/dashboard/analytics/page.tsx:238 | the `daysUntil <= 7` test; it has no contract of its own, and `DaysUntilFutureDeadline` states that a future deadline is urgent exactly when it is at most seven days away |
| Analytics.DaysUntilFutureDeadline | src/app/dashboard/analytics/page.tsx:238 | a future deadline shows at least 1 day left, and it is drawn as urgent exactly when the gap is at most seven days |
| Analytics.DaysUntilWholeAndPartialDays | src/app/dashboard/analytics/page.tsx:227 | a gap of exactly `k` days shows `k`; `k` days plus any part of a day shows `k + 1` |
| Analytics.UpcomingDaysAtLeastOne | src/app/dashboard/analytics/page.tsx:226-227 | with one clock reading for the filter and the day count, every entry in the upcoming panel shows at least one day left |
| Analytics.DaysUntilAtLaterClockRead | src/app/dashboard/analytics/page.tsx:75-77 | when the day count reads a later clock than the filter, a deadline that passed in between is still listed, but shows no day left and is drawn as urgent |
| Analytics.Percentage | src/app/dashboard/analytics/page.tsx:145 | a bar width is 0 when the total is 0, is never negative, and is at most 100 when the count does not exceed the total |
| Analytics.ShareBounds | src/app/dashboard/analytics/page.tsx:145 | arithmetic helper for `Percentage`: a non-negative share of a positive total, scaled to 100, is non-negative, and at most 100 when the share does not exceed the total |
| Analytics.PercentageScales | src/app/dashboard/analytics/page.tsx:145 | for a positive total, width times total equals count times 100 |
| Analytics.StatusBars | src/app/dashboard/analytics/page.tsx:143-145 | there is one bar per status, in the `stats` key order, and each bar's width is that status's percentage of the total |
| Analytics.StatusBarsWithinRange | src/app/dashboard/analytics/page.tsx:145 | every status bar width lies in [0, 100] |
| Analytics.StatusBarsFillWhole | src/app/dashboard/analytics/page.tsx:143-145 | for a non-empty list the five bars add up to exactly 100 percent |
| Analytics.PercentagesOfPartition | src/app/dashboard/analytics/page.tsx:145 | helper for `StatusBarsFillWhole`: the percentages of five counts that make up a positive total add up to 100 |
| Analytics.PercentageAdds | src/app/dashboard/analytics/page.tsx:145 | the percentages of two counts of the same positive total add up to the percentage of their sum |
| Analytics.SharesAdd | src/app/dashboard/analytics/page.tsx:145 | arithmetic helper for `PercentageAdds`: scaled shares of one positive total add |
| Analytics.PercentageOfWhole | src/app/dashboard/analytics/page.tsx:145 | a count equal to a positive total is 100 percent |
| Dashboard.RemoveById | src/app/dashboard/page.tsx:64 | the filter keeps exactly the records whose id differs from the deleted one |
| Dashboard.RemoveByIdMultiplicity | src/app/dashboard/page.tsx:64 | every record with another id keeps its multiplicity; every record with the deleted id is gone |
| Dashboard.RemoveByIdKeepsOrder | src/app/dashboard/page.tsx:64 | the remaining records keep their relative order |
| Dashboard.RemoveByIdIdempotent | src/app/dashboard/page.tsx:64 | deleting the same id twice leaves the list that deleting it once does |
| Dashboard.StatusIcon | src/app/dashboard/page.tsx:71-84 | `getStatusIcon` draws the default `Minus` icon exactly for `Applying`; `StatusIconsDistinct` states that the four named statuses get four different icons |
| Dashboard.StatusIconsDistinct | src/app/dashboard/page.tsx:71-84 | the four named statuses get four different icons, and `Minus` is drawn exactly for `Applying` |
| Dashboard.StatusColor | src/app/dashboard/page.tsx:86-99 | `getStatusColor` gives the default class string exactly for `Applying` and the shared named-status string for every other status |
| Dashboard.DashboardPage.constructor | src/app/dashboard/page.tsx:22-23 | the page starts with an empty list, shows the spinner and has sent no delete |
| Dashboard.DashboardPage.Stats | src/app/dashboard/page.tsx:101-108 | the stats cards show the list length and per-status counts that sum to it |
| Dashboard.DashboardPage.FetchUniversities | src/app/dashboard/page.tsx:29-50 | the spinner stops on every path; only returned data replaces the list (null data gives the empty list); every other outcome leaves the list as it was |
| Dashboard.DashboardPage.HandleDelete | src/app/dashboard/page.tsx:52-69 | without confirmation nothing happens; a confirmed delete sends exactly one request for that id, and the row leaves the list only on success |
| AddUniversity.InitialForm | src/app/dashboard/add/page.tsx:14-22 | every text field starts empty and the status starts as `Applying` |
| AddUniversity.WithField | src/app/dashboard/add/page.tsx:70-75 | the named field takes the new value and every other field keeps its value |
| AddUniversity.FormsAgreeOnFields | src/app/dashboard/add/page.tsx:14-22 | proof helper for the `WithField` laws: two forms that agree on every field are equal |
| AddUniversity.WithFieldLaws | src/app/dashboard/add/page.tsx:70-75 | writing a field's current value changes nothing, and a second write to the same field replaces the first |
| AddUniversity.WithFieldCommutes | src/app/dashboard/add/page.tsx:70-75 | updates to two different fields give the same form in either order |
| AddUniversity.StatusOptions | src/app/dashboard/add/page.tsx:27-33 | there are five options, each labelled with its own value, and every status appears as an option |
| AddUniversity.StatusOptionsAreExactlyTheStatuses | src/app/dashboard/add/page.tsx:27-33 | every option value is a status name, and no value appears twice |
| AddUniversity.InsertPayload | src/app/dashboard/add/page.tsx:49-55 | the inserted row carries the user's id and both numbers parsed from the form, with every text field copied unchanged |
| AddUniversity.TryEffects | src/app/dashboard/add/page.tsx:40-64 | the `try`/`catch` body as effects: the login error, or the insert followed by navigation or the backend's error, or the generic error when a call throws; it has no contract of its own, and `SubmitInsertsOnlyWhenSignedIn`, `SubmitNavigatesOnlyOnSuccess` and `SubmitOutcome` state what it does |
| AddUniversity.SubmitEffects | src/app/dashboard/add/page.tsx:35-68 | a submit first clears the error, then raises `loading`, and on every path ends by lowering it |
| AddUniversity.SubmitInsertsOnlyWhenSignedIn | src/app/dashboard/add/page.tsx:41-56 | an insert is sent exactly when a user is signed in: once, as the third effect, with that user's payload |
| AddUniversity.SubmitNavigatesOnlyOnSuccess | src/app/dashboard/add/page.tsx:58-62 | the page navigates exactly when a signed-in user's insert succeeds, and only to `/dashboard` |
| AddUniversity.Step | src/app/dashboard/add/page.tsx:37-66 | one effect applied to the page state (`setError`, `setLoading`, the insert request, `router.push`); it has no contract of its own, and `RunOne` and `SubmitOutcome` state its effect |
| AddUniversity.Run | src/app/dashboard/add/page.tsx:37-66 | the effects applied in order; it has no contract of its own, and `RunAppend` and `SubmitOutcome` state its properties |
| AddUniversity.RunAppend | src/app/dashboard/add/page.tsx:35-68 | proof helper: applying two effect lists in turn is the same as applying their concatenation |
| AddUniversity.RunOne | src/app/dashboard/add/page.tsx:35-68 | proof helper: applying a one-effect list is one step |
| AddUniversity.SubmitOutcome | src/app/dashboard/add/page.tsx:35-68 | after a submit `loading` is false; the error shown is the login message, the backend's message, the generic message, or empty after success; navigation happens only on success; one row is sent exactly when signed in |
| AddUniversity.SubmitError | src/app/dashboard/add/page.tsx:43-64 | the error text a submit leaves for each auth and insert outcome; it has no contract of its own, and `SubmitOutcome` states that it is the error after a submit |
| AddUniversity.AddUniversityPage.constructor | src/app/dashboard/add/page.tsx:14-25 | the page starts with the initial form, not loading, no error, no navigation and nothing sent |
| AddUniversity.AddUniversityPage.HandleChange | src/app/dashboard/add/page.tsx:70-75 | only the named form field changes; loading, error, navigation and requests stay as they were |
| AddUniversity.AddUniversityPage.HandleSubmit | src/app/dashboard/add/page.tsx:35-68 | the form is unchanged, and the page's new state is what applying the submit's effect list to the old state gives |

## Left out

- Backend calls, the confirmation dialog, `router.push` and the clock are not modelled. Each handler takes their outcomes as parameters. `new Date()` is read for each record the filter at `src/app/dashboard/analytics/page.tsx:75` tests, and again for each shown entry at `:227`; the model uses one `now` for all of these reads.
- Analytics.UpcomingDaysAtLeastOne: the day count of at least one holds only under the single `now`. With the separate clock reads of the source, a deadline that passes between the filter's read and the day count's read is listed with a count of 0 (`Math.ceil` of a small negative gap is `-0`) and is drawn as urgent; `Analytics.DaysUntilAtLaterClockRead` states this case.
- Console logging of errors in `fetchUniversities` and `handleDelete` is not modelled, because it changes no state.
- Rendering (JSX, class names other than the badge strings, `toFixed` formatting, `toLocaleDateString`) is not modelled, because it is presentation only.
- Deadlines are milliseconds since the epoch. Parsing a deadline string with `new Date`, and the invalid-date case (a NaN time, which the `>` filter drops), are not modelled.
- `AddUniversity.InsertPayload`: `parseFloat` is a parameter, so the NaN it yields for an empty or non-numeric field is not modelled.
- Numbers are exact reals, not IEEE doubles. The model has no rounding in the sums, the average or the percentages, and no NaN or infinities.
- `Analytics.CountryStats`: JavaScript objects enumerate integer-like keys first and treat inherited names (`constructor`, `__proto__`) specially. The model is a plain insertion-ordered dictionary, so country names of that kind are outside the model.
- `Analytics.AvgScholarship`: its own contract states only the empty case. The mean, its bounds and its relation to the maximum are stated by the lemmas beside it.
- The analytics page's own `fetchUniversities` (`src/app/dashboard/analytics/page.tsx:25-46`) is identical to the dashboard's, which `Dashboard.DashboardPage.FetchUniversities` models.
- The analytics page's lowercase-key bar colour and icon switch (`src/app/dashboard/analytics/page.tsx:146-163`) is not modelled, because it only chooses presentation classes.
- `AddUniversity.WithField`: the source accepts any string as a field name. The model limits it to the form's seven fields, which are the only names the inputs pass.
- React's asynchronous state updates, stale closures in `handleDelete`, and concurrent or interleaved handlers are not modelled: each handler runs to completion on the state it starts from.
- The edit page, the settings page, the login page and the Supabase client itself are not part of this model.
