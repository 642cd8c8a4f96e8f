# esmond: a verified model of the time-series archive

esmond stores measurement data: points are posted to an event type, rolled up into summary
tables, kept in one Cassandra row a year, read back page by page, and finally expired. This
project models the parts of it that carry real algorithms and proves what they promise.
`dafny verify dfyconfig.toml` checks all of it.

| file | what it models |
|---|---|
| `Histograms.dfy` | histograms in insertion order, their in-place merge, and the sorted sample they stand for |
| `Statistics.dfy`, `MergedStatistics.dfy` | mode, mean, range, variance and the four percentiles of a histogram, found in one streaming pass; what merging does to them: the merged histogram describes the pooled sample |
| `Rollups.dfy`, `RollupRuns.dfy`, `RollupTheorems.dfy`, `RollupPosts.dfy`, `StatisticsRows.dfy` | saving a point with all its summaries, the invariant over every run of posts, its consequences for readers, what the tables hold of the posted fields, what statistics rows describe and when they agree with their aggregations |
| `MinMaxCache.dfy` | the one-bin-per-row cache in front of the min/max table, with restarts |
| `Storage.dfy`, `SeekBack.dfy`, `Client.dfy` | rows split by year, paging, the persister's seek-back, and the client's looping query |
| `Policies.dfy`, `Expiry.dfy` | the retention tool: the policy trie with its backtracking lookup, and the chunked delete loop |
| `RowKeys.dfy` | the escaping printer and splitter of row keys |
| `Registry.dfy`, `EventTypes.dfy` | the order-independent checksum of metadata, and the event types a post registers |
| `Sorting.dfy`, `Decimals.dfy`, `Wrappers.dfy` | stable sorting; integers as text; `Option`, `Result` and associativity of + |

How the model reads the code:

- **State.** Objects that the code updates are classes whose methods are proved equal to a
  specification function (`Archive.Save` to `SaveResult`, `StatAggregator.UpdateStatAggregation`
  to `Apply`, `Dataset.DeleteExpired` to `Remaining`); the theorems about runs are about those
  functions. Loops of the code are loops of the model.
- **Numbers.** Percentages of a sample size are exact (`p * (n + 1)` divided by 100), values and
  moments are reals, counters are integers. A posted float is cut to four decimal places towards
  zero, as the code does.
- **Tables.** Cassandra tables are maps, and a post is flushed before the next one, as it is for
  single posts (`esmond/api/perfsonar/api_v2.py:1209-1212`).
- **Time.** The year of a time is any monotone function. Times within a row are whole
  milliseconds in storage, whole seconds for clients.
- **Assumptions.** The summaries configured for one event type are distinct; they include "base"
  and it has no window but 0, as registering event types ensures (`BaseAlwaysRegistered`);
  `multiget` returns rows in the order asked for, columns ascending; the paginator slices its list
  by offset and limit, with 1500 points for a missing or zero limit; histograms are not empty and
  have positive counts.

Where the code does not do what one may expect, the model follows the code and says exactly when
it does:

- A statistics row with window 0 describes the last histogram posted to its bin, not the bin's
  aggregation. A row agrees with its aggregation in every run exactly when its window is not 0
  (`FollowsIffWindowed`), and then it describes the pooled sample of all the histograms posted to
  its bin (`RowDescribesPool`). `WindowZeroBins` says exactly when a row with window 0 agrees.
- The client's loop loses the point at the end of the range in one case: a full page ends exactly
  one second before it (`QueryWithLimit`, `FetchedPoints`; `WholePagesLoseTheEnd` for archives
  where it happens).
- A page asked for with an offset but no limit, or with limit 0, can fall short, because the
  number of columns read from a row is then not derived from the page. For every calendar,
  `PagesAreSlicesIff` says exactly when all pages of a request are right.
- The min/max cache overwrites a stored bin when a row goes back to a bin it has left
  (`StepIsRightIff` for one update, `RunsAreRightIff` for a run, `GoingBackOverwrites` for a run
  that loses a minimum). Going back right after a restart does no harm.
- Splitting a row key gives back its elements only if no element but the last has a backslash and
  the last has no colon, as the splitter never unescapes the last piece (`RoundTrip`). Among
  non-empty lists in which no element but the last ends in a backslash, different lists have
  different keys (`RowkeysInjective`); every other list shares its key with some list
  (`TrailingEscapeCollides`, `PathsThatCollide`).
- A retention policy can be accepted and yet never match anything the archive can hold: its window
  is a JSON number, or text such as "086400", or not 0 for base, or its event type does not allow
  its summary (`MatchesSomethingIff`, `IgnoredIff`; `AcceptedButIgnored` for three such policies).
- The retention tool leaves data behind exactly when some window that holds data comes after too
  many empty windows or a failing query (`NothingRemainsExactlyWhen`; `OldPointIsLeftBehind` for
  such data at every setting).

## Model

| member | source | states |
|---|---|---|
| Histograms.Aggregate | esmond/api/perfsonar/validators.py:117-124 | the in-place merge loop computes `Merge`, whose meaning is `MergeAdds` |
| Histograms.MergeAdds | esmond/api/perfsonar/validators.py:117-124 | merging is the pointwise sum: every label's count and the total count are conserved, no label appears or is lost, labels stay distinct and counts positive |
| Histograms.SampleOfHistogram | esmond/api/perfsonar/validators.py:163-164 | the sample the statistics are defined on is sorted, is a permutation of the counted values, and has as many points as the histogram counts |
| Histograms.SortItemsSorts | esmond/api/perfsonar/validators.py:163-164 | sorting by numeric label gives an ascending permutation of the buckets, and expands to the same multiset of values |
| Statistics.Percentile.FindValue | esmond/api/perfsonar/validators.py:72-86 | the state machine's step: interpolate when waiting, else decide now or keep the value and wait |
| Statistics.OfferIsRight | esmond/api/perfsonar/validators.py:72-86 | a bucket offered to a percentile that is right so far either yields the NIST value of the whole sample, or leaves it waiting on exactly the sample point at its rank |
| Statistics.QuantilesSeparated | esmond/api/perfsonar/validators.py:58-65 | for every sample size the ranks of 25, 50, 75, 95 ascend, never exceed the size, and never coincide strictly inside the sample |
| Statistics.VisitBucket | esmond/api/perfsonar/validators.py:181-197 | the nested loop keeps: percentiles taken off the queue have their NIST value, the head holds what it should after this many points, the rest are untouched |
| Statistics.SecondPass | esmond/api/perfsonar/validators.py:172-197 | one streaming pass finds all four percentiles, each equal to the NIST value on the expanded sample, and the weighted squared deviations |
| Statistics.NextMode | esmond/api/perfsonar/validators.py:155-158 | the incremental mode list is the list of labels attaining the largest count so far |
| Statistics.FirstPass | esmond/api/perfsonar/validators.py:141-161 | one pass finds the mode list, the weighted sum and the sample size, and stops exactly when some label is not a number |
| Statistics.Compute | esmond/api/perfsonar/validators.py:134-204 | the two passes give the statistics read off the expanded sample: mode, mean, ends, NIST percentiles, variance; an empty document when a label is not a number |
| Statistics.NistRule | esmond/api/perfsonar/validators.py:58-86 | the rule in the sample's own terms: with p(N+1) in [100k, 100(k+1)) the percentile is Y[1] for k = 0, Y[N] for k >= N, and else lies (p(N+1) - 100k) hundredths of the way from Y[k] to Y[k+1] |
| Statistics.PercentilesFollowRule | esmond/api/perfsonar/validators.py:172-197 | the stored percentiles are those of 25, 50, 75 and 95 and no others, each by that rule on the sorted, expanded sample |
| Statistics.NistInRange | esmond/api/perfsonar/validators.py:63-86 | a percentile lies between the two sample points around its rank, hence in the range of the sample |
| Statistics.NistMonotone | esmond/api/perfsonar/validators.py:63-86 | a larger percentage never gives a smaller percentile, for all percentages and samples |
| Statistics.PercentilesOrdered | esmond/api/perfsonar/validators.py:163-197 | minimum <= percentile-25 <= median <= percentile-75 <= percentile-95 <= maximum |
| Statistics.ModeIsLargest | esmond/api/perfsonar/validators.py:155-167 | a value is in the mode list if and only if it labels a bucket with the largest count |
| Statistics.MomentsOfStatistics | esmond/api/perfsonar/validators.py:159-200 | the mean is the mean of the counted values in whatever order they came; the variance is the mean of squares less the squared mean, and not negative |
| Statistics.VarianceIdentity | esmond/api/perfsonar/validators.py:172-200 | for every sample the two-pass variance equals the mean of squares less the squared mean |
| Statistics.RangeOfStatistics | esmond/api/perfsonar/validators.py:168-170 | minimum and maximum are sample points that bound all others |
| Rollups.Archive.Save | esmond/api/perfsonar/api_v2.py:436-460 | a save refuses an existing time of a counter type, else writes every configured summary in order with one cache, and gives outcome and whole new state |
| Rollups.Archive.DatabaseWrite | esmond/api/perfsonar/api_v2.py:520-561 | one summary's write: skipped when the type does not allow it, rejected without effect when invalid, else bin, roll-up and insert |
| RollupRuns.CacheUpTo | esmond/api/perfsonar/validators.py:126-132 | at any point of a save the cache holds, for each window, exactly the merged aggregate of an already aggregated bin, if its summary has been processed |
| RollupRuns.Effect | esmond/api/perfsonar/api_v2.py:445-460 | what a save leaves in each configured cell depends on the tables before the save alone: later summaries do not disturb it and statistics see the new aggregate |
| RollupRuns.EveryRunMatches | esmond/api/perfsonar/api_v2.py:436-562 | after every run of posts each configured cell is the fold of exactly the accepted points of its bin, empty bins have no cell, and no other cells exist |
| RollupRuns.BinContent | esmond/api/perfsonar/validators.py:43-51 | the content of any one bin after any run: sums, with the count of points for averages and a count of 1 for float aggregations, and merged histograms |
| RollupTheorems.BaseHoldsFirstValid | esmond/api/perfsonar/api_v2.py:439-443 | for counter types the base table holds each time's first valid posted value and nothing else |
| RollupTheorems.AcceptedExactlyWhen | esmond/api/perfsonar/api_v2.py:439-460 | after any run a post is accepted if and only if it is valid and, for a counter type, no valid value was posted at its time; otherwise nothing changes |
| RollupPosts.OutcomeOfPost | esmond/api/perfsonar/api_v2.py:436-460 | after any run a post conflicts if and only if its type is a counter and a post whose fields pass the checks came at its time before, is saved if and only if it passes and does not conflict, and is else rejected |
| RollupPosts.ErrorsNameTheField | esmond/api/perfsonar/validators.py:247-265 | which error a refused post gets, as an if and only if on its fields |
| RollupPosts.BinsHoldPosts | esmond/api/perfsonar/api_v2.py:436-562 | in every run a configured cell holds the sums of the posted integers, truncated floats, numerators and denominators, or label counts, of exactly the accepted posts of its bin, with their number for an average; a summary the data type does not allow has no cell |
| RollupPosts.BaseHoldsFirstPosted | esmond/api/perfsonar/api_v2.py:439-443 | for counter types the base cell of a time holds the fields of the first post for it that passes the checks, and there is none where no post passes |
| RollupPosts.BaseHoldsLastHistogram | esmond/api/perfsonar/api_v2.py:559-561 | for histograms the base cell of a time holds the last histogram posted for it |
| RollupPosts.CellsAreBins | esmond/api/perfsonar/api_v2.py:407-431 | two points share a cell of two configured windows if and only if summary and window are the same and both times lie in one multiple of the window |
| RollupPosts.PercentageReadsBack | esmond/cassandra.py:1105-1107 | a percentage reads back as numerator over denominator |
| RollupTheorems.AggregationConserves | esmond/api/perfsonar/validators.py:117-139 | conservation: an aggregation bin adds up exactly the accepted points in it: values, both halves of percentages, histogram counts by label and in total |
| RollupTheorems.IntegerAverageIsMean | esmond/api/perfsonar/validators.py:222-226 | an integer average reads back as the exact mean of its bin's accepted points |
| RollupTheorems.BinFromBase | esmond/api/perfsonar/api_v2.py:424-431 | adding up the base table second by second over a window gives the window's aggregation bin |
| RollupTheorems.CoarseFromFine | esmond/api/perfsonar/api_v2.py:424-431 | when one window divides another, the fine bins inside a coarse bin add up to the coarse bin in every reachable state |
| RollupTheorems.StatisticsFollowAggregate | esmond/api/perfsonar/validators.py:134-139 | a statistics row with a non-zero window that also has an aggregation is the statistics of that bin's current aggregate; any other is that of the last histogram posted |
| StatisticsRows.FollowsIffWindowed | esmond/api/perfsonar/validators.py:134-139 | a statistics row that also has an aggregation agrees with it in every run and bin if and only if its window is not 0, for every reader of labels that tells a numeric label from another |
| StatisticsRows.WindowZeroBins | esmond/api/perfsonar/validators.py:136-204 | in every run, a window-0 row agrees with its bin's aggregation if and only if the bin has at most one histogram, or the last one has a label that is not a number, or all are numeric and the last one has the mean and variance of the earlier ones, covers their range, and has the modes and percentiles of all |
| StatisticsRows.RowDescribesPool | esmond/api/perfsonar/validators.py:134-204 | in every run, a row with another window and an aggregation holds mean, variance, range and NIST percentiles of the one sorted list of all values posted to its bin, and the labels with the largest pooled count |
| MergedStatistics.SamplesPool | esmond/api/perfsonar/validators.py:117-124 | a merged histogram stands for the samples of both parts, pooled |
| MergedStatistics.SampleIsUnique | esmond/api/perfsonar/validators.py:163-164 | only one ascending list holds the values of a sample, so statistics do not depend on the order of posts |
| MergedStatistics.MergedMoments | esmond/api/perfsonar/validators.py:117-200 | merging two numeric histograms keeps the mean of the one if and only if both have it, and then the variance if and only if both have that |
| MergedStatistics.MergedRange | esmond/api/perfsonar/validators.py:117-170 | the range of a merged histogram is the hull of both ranges |
| MergedStatistics.NumericMerge | esmond/api/perfsonar/validators.py:117-152 | a merged histogram has only numeric labels if and only if both parts have |
| RollupTheorems.PercentageBins | esmond/api/perfsonar/validators.py:262-270 | every percentage bin has a positive denominator, and its pooled ratio lies between the ratios of two of its points, so at most 1 when theirs are |
| RollupTheorems.FloatBins | esmond/api/perfsonar/validators.py:31-51 | a float reads back within 1/10000 and never larger in magnitude; an n-point aggregation within n/10000 of the true sum; an average within 1/10000 of the true mean |
| MinMaxCache.StatAggregator.GetAggFromCache | esmond/cassandra.py:418-475 | seeds an absent or empty row from the table, then either finds the bin or replaces the row by a new bin with the incoming value |
| MinMaxCache.StatAggregator.UpdateStatAggregation | esmond/cassandra.py:485-539 | the whole new cache and table after an update, and whether anything was written |
| MinMaxCache.SafeStep | esmond/cassandra.py:447-539 | a safe update or restart keeps: each stored bin is the min/max of all values seen with the first time attaining it, each cached row is one bin as stored |
| MinMaxCache.StepIsRightIff | esmond/cassandra.py:462-471 | an update keeps the table right if and only if its row is not cached for another bin while this bin is stored, or the stored bin holds nothing but this sample's value and time |
| MinMaxCache.ForwardRunsAreRight | esmond/cassandra.py:447-539 | in every run of updates and restarts whose rows never go back to an earlier bin, table and cache are right throughout |
| MinMaxCache.RunsAreRightIff | esmond/cassandra.py:447-539 | table and cache are right throughout a run of updates and restarts if and only if no row goes back to a bin seen before after moving on since the last restart, but to repeat the only value seen there at its first time |
| MinMaxCache.GoingBackOverwrites | esmond/cassandra.py:462-471 | a run of three updates after which the table has lost the minimum of a bin |
| Storage.GetRowKeys | esmond/cassandra.py:541-560 | for any two times the keys asked for are those of all years from the first to the last, ascending; none if the first year is later |
| Storage.Query | esmond/cassandra.py:704-731 | the nested loops collect, row by row, the first columns in the range; without a column count they are counted first and five are added |
| Storage.UncountedQueryIsAll | esmond/cassandra.py:709-731 | a query without a column count returns exactly the points of the range, in order |
| Storage.HandleTimeFilters | esmond/api/perfsonar/api_v2.py:261-298 | which of time, start, end and range decide, the range they ask for, and the errors for a time that is not an integer and a start after the end |
| Storage.TimeFiltersMean | esmond/api/perfsonar/api_v2.py:268-298 | the range that every combination of time, start, end and range asks for, and when it is refused |
| Storage.TimesMustBeIntegers | esmond/api/perfsonar/api_v2.py:261-291 | a time that is not an integer is an error if and only if it takes part in the decision |
| Storage.Retrieve | esmond/api/perfsonar/api_v2.py:1128-1150 | a request ends in the error of its time filters, else in a page cut from a query capped at limit + offset per row; an open end is an hour after the query |
| Storage.WriteRefinesPut | esmond/cassandra.py:997-1004 | writing a point to the row of its own year is inserting it into the flat ascending list |
| Storage.RunsAreRepresented | esmond/cassandra.py:997-1004 | after any writes in any order the year rows represent one ascending list holding exactly the last value written at each time |
| Storage.WholeIsAll | esmond/cassandra.py:541-560 | no point of the range hides in a row whose key is not asked for |
| Storage.CapKeepsPrefix | esmond/cassandra.py:719-731 | capping every row keeps the first so many points of the uncapped result |
| Storage.PageIsSlice | esmond/api/perfsonar/api_v2.py:1133-1150 | the page holds at most limit points of the flat sorted range after the first offset, an absent offset being 0 and an absent or zero limit 1500: for every positive limit and any offset, without a limit while the default cap covers the page, and whenever no year has more seconds than the cap |
| Storage.UncoveredPageFallsShort | esmond/api/perfsonar/api_v2.py:1133-1140 | in all other cases, for every calendar, some archive gives a page shorter than the slice |
| Storage.PagesAreSlicesIff | esmond/api/perfsonar/api_v2.py:1133-1150 | for every calendar and request, all pages are right if and only if the limit is positive, or absent with offset + 1500 <= 1000000, or no year has more whole seconds than columns are read from a row |
| Storage.PagesConcatenate | esmond/api/perfsonar/api_v2.py:1133-1150 | consecutive pages put together are the range itself from the first offset on: nothing is skipped or repeated |
| SeekBack.LastColumns | esmond/cassandra.py:329-344 | the last entry of the reversed one-column query is the latest point of the latest row that has any |
| SeekBack.MetadataCache.GetMetadata | esmond/cassandra.py:323-360 | a cached measurement is returned as it is; a cold one is looked up, cached and returned |
| SeekBack.SeekBackFindsLatest | esmond/cassandra.py:323-356 | a cold lookup returns the latest raw point strictly before the new one within 30 days, across a year boundary too, and the new point exactly when there is none |
| Client.QueryWithLimit | esmond/api/client/perfsonar/query.py:147-195 | over a fixed archive the loop ends and, through the server's own pages, returns the points of [start, end] but for the one named case |
| Client.FetchedPoints | esmond/api/client/perfsonar/query.py:175-188 | the result is ascending without duplicates and holds a point if and only if it is in the range and is not the point at the end that a full page ended one second before |
| Client.WholePagesLoseTheEnd | esmond/api/client/perfsonar/query.py:175-188 | of one point a second from 0 to the end, written one by one, the client misses the last whenever the end is a multiple of the page size |
| Policies.PolicyTable.Load | util/ps_remove_data.py:227-241 | the loop builds the trie of all policies in listed order, or reports the first unusable field or action |
| Policies.AcceptedAsConfigured | util/ps_remove_data.py:182-241 | a policy is accepted if and only if every match field is there with "*" or an allowed value and its action is usable, and then reads as configured; else the first unusable field, or the action, is reported |
| Policies.LoadsAsConfigured | util/ps_remove_data.py:227-241 | all policies are accepted if and only if each is, and are then built into the trie as configured and in order; else the first refused is reported |
| Policies.WalkBuild | util/ps_remove_data.py:227-241 | a path leads to a node if and only if some listed policy passes through it |
| Policies.LeafBuild | util/ps_remove_data.py:227-241 | the bottom of a path holds the action of the last policy listed with it |
| Policies.LookupFindsMostSpecific | util/ps_remove_data.py:167-180 | the backtracking lookup returns the last-listed policy among the matches with the lexicographically greatest specificity, and none exactly when nothing matches |
| Policies.SpecificityIsTotal | util/ps_remove_data.py:167-180 | of two different matching policies exactly one is the more specific, so the result is unique |
| Policies.MatchesSomethingIff | util/ps_remove_data.py:167-180 | an event type the archive can hold matches a policy if and only if a configured event type and one of its summaries fit the names, and the window is the wildcard or the canonical decimal of a window in the column, 0 for base |
| Policies.IgnoredIff | util/ps_remove_data.py:167-180 | on its own a policy is ignored for all that the archive can hold if and only if that condition fails |
| Policies.AcceptedButIgnored | util/ps_remove_data.py:230-241 | three policies that pass the checks and are ignored: a day as a number, with a leading zero, and as a window of base |
| Decimals.DecimalIff | util/ps_remove_data.py:173 | a text is the decimal form of an integer if and only if it is canonical and has that value |
| EventTypes.DeserializeEventTypes | esmond/api/perfsonar/api_v2.py:720-773 | the nested loops register each posted event type's base entry and summaries, or report the first error |
| EventTypes.RegistersExactly | esmond/api/perfsonar/api_v2.py:728-773 | a post is accepted if and only if all its event types are configured and all its summaries base or allowed with an integer window; it registers the base entries and the entries its summaries ask for, and nothing else |
| EventTypes.FirstErrorReported | esmond/api/perfsonar/api_v2.py:728-765 | the error is that of the first refused event type, and of its first refused summary |
| EventTypes.SummaryErrors | esmond/api/perfsonar/api_v2.py:750-765 | which error a refused summary gets, as an if and only if on its fields |
| EventTypes.RegistrableIff | esmond/api/perfsonar/api_v2.py:728-771 | some post registers an entry if and only if its event type is configured and it is the base entry with window 0 or a summary the data type allows |
| EventTypes.BaseAlwaysRegistered | esmond/api/perfsonar/api_v2.py:740-744 | every registered entry comes with the base entry of its event type, and base has no other window |
| Expiry.Dataset.DeleteExpired | util/ps_remove_data.py:278-322 | the loop ends for every positive chunk, does exactly the rounds its stopping conditions allow, and removes exactly what their windows cover |
| Expiry.WindowsTile | util/ps_remove_data.py:278-301 | the windows tile backwards from the expiry time without gaps, never go below 0, only the last may be shorter than a chunk, and nothing later than the expiry time is removed |
| Expiry.LastWindowExists | util/ps_remove_data.py:284-301 | for every expiry time and positive chunk some window reaches the beginning of time |
| Expiry.ReachesBeginningIff | util/ps_remove_data.py:282-306 | when no query fails, the loop gets to that window if and only if fewer than the allowed number of windows before it are empty |
| Expiry.MissesAreEmptyRounds | util/ps_remove_data.py:303-306 | the misses counted so far are as many as the rounds whose windows hold no stored time, and no others |
| Expiry.NoGapsLeaveNothing | util/ps_remove_data.py:282-322 | where no window before the last one is empty, one allowed miss is enough to remove everything in [0, expiry] |
| Expiry.SurvivorsAre | util/ps_remove_data.py:292-322 | a time survives if and only if it is later than the expiry time or before the last window searched |
| Expiry.NothingRemainsExactlyWhen | util/ps_remove_data.py:282-322 | nothing in [0, expiry] remains if and only if every window that holds something comes before any failing query and after fewer empty windows than allowed |
| Expiry.OldPointIsLeftBehind | util/ps_remove_data.py:282-306 | for every chunk and allowed number of misses a point at 0 below that many empty windows stays, even when no query fails |
| Expiry.FewMissesLeaveNothing | util/ps_remove_data.py:282-322 | with fewer empty windows than allowed and no failing query, nothing in [0, expiry] remains |
| RowKeys.CutIndices | esmond/cassandra.py:1142-1149 | the first loop finds exactly the delimiters that are not escaped, in order |
| RowKeys.SplitRowkey | esmond/cassandra.py:1134-1158 | the two loops compute `Split`, the inverse of joining in `RoundTrip` |
| RowKeys.SplitStripsAllButLast | esmond/cassandra.py:1153-1156 | no piece but the last ever holds an escape character |
| RowKeys.RoundTrip | esmond/cassandra.py:1109-1158 | splitting a joined, escaped list gives it back if and only if no element but the last has a backslash and the last has no colon |
| RowKeys.RowkeyRoundTrip | esmond/cassandra.py:1117-1158 | a row key splits into path, frequency and year under exactly that condition; with a frequency or year present, backslash-free steps are exactly what is needed |
| RowKeys.RowkeyParts | esmond/cassandra.py:1117-1158 | for backslash-free steps a row key splits into the path, the decimal frequency and the decimal year, each of the two exactly when it is given and not 0, in that order |
| RowKeys.YearsHaveOwnRows | esmond/cassandra.py:1117-1132 | one path and frequency has a row of its own for every year |
| RowKeys.FrequenciesHaveOwnRows | esmond/cassandra.py:1117-1132 | two frequencies of one path share no row |
| RowKeys.RowkeysInjective | esmond/cassandra.py:1109-1132 | different element lists never share a row key when no element but the last ends in a backslash, whatever else they hold |
| RowKeys.TrailingEscapeCollides | esmond/cassandra.py:1109-1132 | every list with such an element shares its key with a shorter list |
| RowKeys.PathsThatCollide | esmond/cassandra.py:1109-1132 | two different paths that share their row keys at every frequency and year |
| Registry.CalculateChecksum | esmond/api/perfsonar/api_v2.py:775-787 | the update loops hash exactly the canonical string |
| Sorting.SortForgetsOrder | esmond/api/perfsonar/api_v2.py:776-777 | sorting two orderings of the same elements gives the same list, if equivalent elements are equal |
| Registry.CanonicalForgetsOrder | esmond/api/perfsonar/api_v2.py:775-787 | reordering the subject fields, parameters or event types leaves the hashed string unchanged |
| Registry.CanonicalDetermines | esmond/api/perfsonar/api_v2.py:775-787 | when no text holds a comma or a colon, two objects hash the same bytes if and only if subject type, sorted fields of subject then parameters, and sorted event types are the same up to letter case |
| Registry.HashedInOrder | esmond/api/perfsonar/api_v2.py:776-785 | fields are hashed in ascending order of key, event types of name, then summary, then window |
| Registry.StringLeIff | esmond/api/perfsonar/api_v2.py:776-780 | texts are ordered by the first place where they differ |
| Registry.Archive.Create | esmond/api/perfsonar/api_v2.py:692-718 | returns the first object with the checksum and registers nothing, or registers a new one |
| Registry.ReorderedRepeatIsFirst | esmond/api/perfsonar/api_v2.py:692-718 | however many creates come between, a reordered repeat returns the object of the first post and registers nothing |
| Registry.ChecksumsStayDistinct | esmond/api/perfsonar/api_v2.py:692-705 | in every run of creates no two registered objects share a checksum |

## Left out

- Statistics.Compute: leaves out the standard deviation (the square root of the variance) and keys percentiles by their percentage, not by "median" or "percentile-N".
- Policies.PolicyTable.Load: takes the type and value check of each field as any predicate, and says nothing about the table after an unusable policy, as the tool ends there.
- Client.QueryWithLimit: models queries with both a start and an end; without an end the last check of the loop is not made, and a time range slides with every page.
- Expiry.Dataset.DeleteExpired: takes the expiry time as given and deletions as successful; how the time follows from the policy, the clock, the start option and the last update is not modelled.
- Policies: the nested dictionary is extended in place through a moving reference; the model inserts each policy into a trie value, so aliasing of the levels is not captured.
- Rounding, overflow and NaN of floating point; all values are exact reals or integers.
- Empty histograms and zero or negative counts: the code divides by the sample size.
- EventTypes.DeserializeEventTypes: takes the list as given; a post whose event types are not a list is not modelled.
- JSON and subinterval event types, which have no summaries beyond storing the document.
- Bulk PUT: it flushes once at the end, so its reads miss its own pending writes and conservation does not hold there.
- Several summaries of one type and window for one event type.
- Times posted with fractions of a second.
- Column families are one map of cells, told apart by the kind of content; encoding of column names and values is not modelled.
- Connecting to Cassandra, schema setup, batches, retries and consistency.
- Negative limits and offsets, and the paginator's own parsing, links and headers.
- SHA-256 and lower-casing are arbitrary functions; for texts with a comma or a colon, that different objects hash different bytes is not claimed, since fields are joined unescaped.
- Whether sorting before lower-casing makes the checksum depend on letter case.
- The removal of metadata by the retention tool.
- Rate bins, their averages over a frequency, and the persister's update of cached metadata.
- `atencode`, `atdecode` and `nextmonth`.
- The relational database, DNS lookups, authentication, HTTP, logging and option parsing.
