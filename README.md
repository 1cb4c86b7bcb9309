# Cohort retention and user segmentation, modelled in Dafny

This project models two small pieces of logic from an analytics repository and proves what they
compute.

**Weekly cohort retention** (`part2/cohort_analysis.py`, the pandas path). Users carry a signup
date and events carry a timestamp. For every signup month, the script computes the percentage of
the month's users that were active in each of weeks 1 to 8 after signup. The model follows the
script one dataframe at a time (`cohort.dfy`, module `CohortAnalysis`):

- `Eligible` is `filtered_users`: the users who signed up before the cutoff.
- `LeftJoin` is the left merge with `events`; a user without events keeps one row with no
  timestamp.
- `IsActive` is the half-open week test of `is_active`.
- `UserWeekly` is the per-(user_id, signup_month) maximum of the eight flags.
- `CohortSums` is the per-month sum of those flags, months in ascending order.
- `CohortSizes` is `total_users_count`: distinct ids per month over the **unfiltered** users.
- `InnerMerge` is the inner merge on the cohort month.
- `RetentionTable` divides, scales to a percentage and drops `total_users_count`.
- `CohortRetention` chains the steps. It fails in five ways, tested in the order the script
  reaches them:
  - `pd.to_datetime` raises on a signup date (line 57). The date is not a calendar date, or its
    midnight lies outside the signed 64-bit nanosecond range (1677-09-22 to 2262-04-11).
  - `to_period('M').to_timestamp()` raises on a signup month (line 58). The first of the month
    lies before the earliest nanosecond timestamp, which is the case for accepted dates of
    September 1677.
  - No user signed up before the cutoff. The empty `user_events` frame then makes `apply` at line
    73 return a frame, not a column, and the assignment raises.
  - The `events` table is empty while some user is eligible. Its `timestamp` column then has no
    datetime type, the left merge fills it with float NaN, and the first `>=` of `is_active`
    (line 68) compares a float with a `Timestamp`. The week-1 start never overflows, so this
    comes before the next cause.
  - `is_active` adds weeks to an eligible signup past the last nanosecond timestamp. The start of
    a week is computed on every row; its end only after an event at or after the start. With the
    script's own cutoff this cannot happen; with a cutoff on or after 2262-02-16 it can.

Dates are proleptic-Gregorian calendar dates (`calendar.dfy`, module `Calendar`). An instant is
an integer count of microseconds since 1970-01-01T00:00, and a signup date counts from its
midnight. The cutoff is a parameter; `SourceCutoff` is the script's `'2025-11-06'`. Only calendar
dates stand for a cutoff string the script could hold. The lemmas do not require this: they hold
for every `Date` value, since the cutoff enters only through its day count.

`cohort_proofs.dfy` (module `CohortRetentionProofs`) defines the meaning of the table without
joins, groups or sums:

- `EligibleIds` and `ActiveIds` are sets of ids taken straight from which users and events
  exist.
- `IdsInMonth` is the set of ids of all users of a month.
- `CohortRetentionCorrect` proves the pipeline computes exactly the following. The months are
  the signup months of eligible users, ascending. Each week-N value is
  `|ActiveIds(N)| * 100 / |IdsInMonth|`.
- Order independence, bounds, the no-event case and a worked example follow from that.

**User segmentation bookkeeping** (`part3/user_segmentation_pipeline.py`, `segmentation.dfy`,
module `UserSegmentation`). The list reshaping around the search engine, the sentence encoder and
k-means is imperative, as in the script:

- loops that append become methods with `for` loops and invariants;
- the per-user dicts that `cluster_into_segments` updates in place become the class `UserRecord`
  with a mutable `segment` field;
- the sentence encoder (`encode`) and k-means (`kmeans`) are function parameters.

The cohort size counts every user who signed up in the month, eligible or not (line 114). Only
the numerators are restricted to users before the cutoff, so a month that the cutoff splits shows
lower retention than its eligible users alone would give. The model keeps this behaviour and does
not restrict the size to eligible users. `StraddlingMonthCountsAllSignups` shows the effect on a
two-user example, where one active eligible user of two gives 50 percent.

## Model

| member | source | states |
|---|---|---|
| Calendar.DaysInMonth | part2/cohort_analysis.py:57 | A month has 28 to 31 days; February has 29 exactly in leap years. |
| Calendar.NextDay | part2/cohort_analysis.py:57 | The day after a valid date is a valid date. |
| Calendar.DaysFromCivilNextDay | part2/cohort_analysis.py:57 | The day count used for instants grows by exactly one from every valid date to the next, across month, February and year ends. |
| Calendar.MarchYearLength | part2/cohort_analysis.py:57 | The day count steps by one from the end of February to March 1, for leap and common years and across 400-year eras. |
| Calendar.MonthLengths | part2/cohort_analysis.py:57 | The last day of every month other than February is followed, one day later, by the first of the next month. |
| Calendar.WithinMonth | part2/cohort_analysis.py:57 | Inside a month, the next day of the month is one day later. |
| Calendar.YearOfEraStep | part2/cohort_analysis.py:57 | Inside an era, the leap-day correction grows by one exactly when the next year is a leap year. |
| Calendar.LeapInEra | part2/cohort_analysis.py:57 | A year inside an era is a leap year exactly when its offset is a multiple of 4 and not of 100. |
| Calendar.EraRemainders | part2/cohort_analysis.py:57 | Whole 400-year eras keep the remainders by 4, 100 and 400. |
| Calendar.Epoch | part2/cohort_analysis.py:57 | 1970-01-01 is day 0, so instants count from the Unix epoch. |
| Calendar.KnownDateMillennium | part2/cohort_analysis.py:57 | 2000-03-01, after a leap day of a year divisible by 400, is day 11017. |
| Calendar.KnownDateCutoff | part2/cohort_analysis.py:62 | The cutoff 2025-11-06 is day 20398. |
| Calendar.KnownDateNovemberFirst | part2/cohort_analysis.py:62 | 2025-11-01 is day 20393, before the cutoff. |
| Calendar.KnownDateNovemberTenth | part2/cohort_analysis.py:62 | 2025-11-10 is day 20402, after the cutoff. |
| Calendar.KnownDateBeforeLowestTimestamp | part2/cohort_analysis.py:57 | 1677-09-21 is day -106752, whose midnight is before the earliest nanosecond timestamp. |
| Calendar.KnownDateLowestTimestamp | part2/cohort_analysis.py:57 | 1677-09-22 is day -106751, the first midnight a nanosecond timestamp can hold. |
| Calendar.KnownDateHighestTimestamp | part2/cohort_analysis.py:57 | 2262-04-11 is day 106751, the last midnight a nanosecond timestamp can hold. |
| Calendar.KnownDateAfterHighestTimestamp | part2/cohort_analysis.py:57 | 2262-04-12 is day 106752, whose midnight is after the latest nanosecond timestamp. |
| Calendar.KnownDateLastFullEighthWeek | part2/cohort_analysis.py:68 | 2262-02-14 is day 106695, the last signup whose week 8 ends inside the nanosecond range. |
| Calendar.KnownDateFirstCutEighthWeek | part2/cohort_analysis.py:68 | 2262-02-15 is day 106696, the first signup whose week 8 ends past it. |
| Calendar.KnownDateLastEighthWeekStart | part2/cohort_analysis.py:68 | 2262-02-21 is day 106702, the last signup whose week 8 starts inside the nanosecond range. |
| Calendar.KnownDateFirstLostEighthWeek | part2/cohort_analysis.py:68 | 2262-02-22 is day 106703, the first signup whose week 8 starts past it. |
| Calendar.KnownDateLateApril | part2/cohort_analysis.py:68 | 2262-04-01 is day 106741, a signup whose week 3 starts past the nanosecond range. |
| Calendar.KnownDateFirstOfLowestMonth | part2/cohort_analysis.py:58 | 1677-09-01 is day -106772, whose midnight is before the earliest nanosecond timestamp. |
| Calendar.KnownDateFirstRepresentableMonthStart | part2/cohort_analysis.py:58 | 1677-10-01 is day -106742, the first month start inside the nanosecond range. |
| Calendar.MonthStartOf | part2/cohort_analysis.py:58 | The signup month's first day is a valid date of the same month, `day - 1` days before the date and not after it. |
| CohortAnalysis.FirstMalformed | part2/cohort_analysis.py:57 | None exactly when every signup date is a calendar date from 1677-09-22 to 2262-04-11, the midnights a signed 64-bit nanosecond timestamp holds; otherwise a user whose date is not. |
| CohortAnalysis.RepresentableEdges | part2/cohort_analysis.py:57 | The first and last accepted dates have midnights within the 64-bit nanosecond range, and the days just outside them do not. |
| CohortAnalysis.MonthStartEdges | part2/cohort_analysis.py:58 | The earliest accepted date, 1677-09-22, has a month start outside the nanosecond range; 1677-10-01 is accepted and is its own month start inside the range. |
| CohortAnalysis.FirstMonthStartOutOfRange | part2/cohort_analysis.py:58 | None exactly when the first of every signup month has a midnight inside the nanosecond range; otherwise a user whose month start is not. |
| CohortAnalysis.Eligible | part2/cohort_analysis.py:62 | Keeps exactly the users who signed up strictly before the cutoff. |
| CohortAnalysis.EventTimes | part2/cohort_analysis.py:63 | The timestamps of exactly the events of one user. |
| CohortAnalysis.JoinOne | part2/cohort_analysis.py:63 | A user's merged rows: one per event of theirs, or a single row without timestamp exactly when they have no events. |
| CohortAnalysis.LeftJoin | part2/cohort_analysis.py:63 | Every filtered user appears; a row with a timestamp exists exactly for each (user, event) pair, and a row without one exactly for users without events. |
| CohortAnalysis.DistinctKeys | part2/cohort_analysis.py:84-87 | The groups of `groupby(['user_id', 'signup_month'])`: exactly the keys of the rows, each once. |
| CohortAnalysis.InsertMonth | part2/cohort_analysis.py:96-99 | Inserting a month into a strictly ascending list keeps it strictly ascending and adds exactly that month. |
| CohortAnalysis.SortedMonths | part2/cohort_analysis.py:96-99 | The group keys of `groupby('signup_month')`: strictly ascending and exactly the months present. |
| CohortAnalysis.CohortSizes | part2/cohort_analysis.py:114 | Has a size for exactly the signup months of all users, and each size is at least 1. |
| CohortAnalysis.InnerMerge | part2/cohort_analysis.py:118 | Every count row whose month has a cohort size is kept, carrying that size; every merged row comes from such a count row, so rows of months without a size are dropped. |
| CohortAnalysis.RetentionRate | part2/cohort_analysis.py:121-122 | The rate times the cohort size is the count times 100; it lies in [0, 100] when the count is at most the size; a full cohort gives 100 and an empty count 0. |
| CohortAnalysis.OverflowReachesWeekEight | part2/cohort_analysis.py:66-80 | If `is_active` raises for some week, it raises for week 8 as well, since later weeks reach further past the signup. |
| CohortAnalysis.ApplyOverflowsAtWeekEight | part2/cohort_analysis.py:73-80 | The eight `apply` calls raise on some row exactly when the week-8 call does. |
| CohortAnalysis.WeekEightEdges | part2/cohort_analysis.py:68 | Week 8 starts inside the nanosecond range for signups up to 2262-02-21 and past it from 2262-02-22; it ends inside the range up to 2262-02-14 and past it from 2262-02-15. |
| CohortRetentionProofs.ActiveWeekIndex | part2/cohort_analysis.py:66-71 | `IsActive` (`is_active`) holds for week N exactly when N - 1 is the number of whole weeks between signup and the event. |
| CohortRetentionProofs.ActiveWeekUnique | part2/cohort_analysis.py:66-80 | The week windows are pairwise disjoint: one joined row is active in at most one week. |
| CohortRetentionProofs.MissingTimestampInactive | part2/cohort_analysis.py:66-71 | A row without timestamp is active in no week. |
| CohortRetentionProofs.GroupMaxIsOr | part2/cohort_analysis.py:84-87 | In `UserWeekly`, the maximum of a group's flags is 1 exactly when some row of the group is active, and 0 otherwise. |
| CohortRetentionProofs.UserWeeklyShape | part2/cohort_analysis.py:84-87 | `UserWeekly` has eight flags per row, distinct (user, month) groups and only 0/1 flags. |
| CohortRetentionProofs.FlaggedAppend | part2/cohort_analysis.py:96-99 | Adding a per-user row adds its id to a week's flagged ids exactly when its flag is set. |
| CohortRetentionProofs.SumIsDistinctCount | part2/cohort_analysis.py:84-99 | A month's week sum equals the number of distinct flagged ids: a user adds at most one, however many events they had. |
| CohortRetentionProofs.JoinedGroups | part2/cohort_analysis.py:62-63 | The groups of the joined table are exactly the (id, month) pairs of eligible users. |
| CohortRetentionProofs.FlagMeansActive | part2/cohort_analysis.py:62-87 | A group's week flag is 1 exactly when an eligible user of that group has an event in that week. |
| CohortRetentionProofs.FlaggedIsActive | part2/cohort_analysis.py:62-99 | Every flagged id is the id of an eligible user of the month with an event in the week. |
| CohortRetentionProofs.ActiveIsFlagged | part2/cohort_analysis.py:62-99 | Every eligible user of the month with an event in the week is flagged. |
| CohortRetentionProofs.FlaggedAreActive | part2/cohort_analysis.py:62-99 | The flagged ids of a month and week are exactly the reference set of active eligible users. |
| CohortRetentionProofs.WeeklyMonthEligible | part2/cohort_analysis.py:62-87 | Every month of the per-user table is the signup month of an eligible user. |
| CohortRetentionProofs.EligibleMonthInWeekly | part2/cohort_analysis.py:62-87 | The signup month of every eligible user appears in the per-user table. |
| CohortRetentionProofs.MonthsOfMember | part2/cohort_analysis.py:96-99 | A month is among the per-user table's months exactly when some row has it. |
| CohortRetentionProofs.WeeklyMonth | part2/cohort_analysis.py:62-99 | The months of the per-user table are exactly the signup months of eligible users. |
| CohortRetentionProofs.InnerMergeKeepsAll | part2/cohort_analysis.py:118 | When every month has a size, the inner merge keeps every row, in order, with its size. |
| CohortRetentionProofs.TableOfCounts | part2/cohort_analysis.py:118-146 | `RetentionTable` after the merge, with positive sizes: one row per count row, with the same month and each count turned into its rate; `total_users_count` is dropped. |
| CohortRetentionProofs.TableOfWeekly | part2/cohort_analysis.py:96-146 | `CohortSums`, the merge with the sizes and `RetentionTable` together: the rows are the per-user table's months in ascending order, and each value is the month's flag sum as a percentage of its size. |
| CohortRetentionProofs.JoinedRowsOverflow | part2/cohort_analysis.py:63-80 | The `apply` calls raise on a left join exactly when one of its users overflows: week 8 starts past the last timestamp, or it ends past it and the user has an event at or after its start. |
| CohortRetentionProofs.OverflowIffLateUser | part2/cohort_analysis.py:62-80 | The script's week flags raise exactly when some eligible user overflows in that sense. |
| CohortRetentionProofs.CohortRetentionCorrect | part2/cohort_analysis.py:56-146 | `CohortRetention` produces a table exactly when five things hold. `pd.to_datetime` accepts every signup date; the first of every signup month fits in a nanosecond timestamp; some user signed up before the cutoff; the events table has rows; and no eligible user makes the week arithmetic overflow. The table's months are then exactly the eligible users' signup months, strictly ascending. Each month holds eight values, week N being the share in percent of the month's distinct users (all users) that are eligible and have an event in week N. |
| CohortRetentionProofs.EligibleTableDescribed | part2/cohort_analysis.py:56-146 | With accepted dates and month starts, an eligible user, a non-empty events table and no week overflow, the table exists and has the meaning above. |
| CohortRetentionProofs.ActiveWithinCohort | part2/cohort_analysis.py:62-114 | Active ids are a subset of the month's eligible ids, which are a subset of the month's ids; the counts are ordered the same way. |
| CohortRetentionProofs.RetentionWithinBounds | part2/cohort_analysis.py:121-132 | Every value of a produced table lies between 0 and 100 percent. |
| CohortRetentionProofs.DescribedWithinBounds | part2/cohort_analysis.py:121-132 | Any table with the meaning above holds only values between 0 and 100. |
| CohortRetentionProofs.FailureCauses | part2/cohort_analysis.py:57-80 | A failure is a rejected signup date exactly when some date is outside the accepted range, and then names a user with such a date. It is a rejected month start exactly when all dates are accepted and some month start is out of range, and then names a user with such a month. A no-eligible-user failure means no user signed up before the cutoff. An empty-events failure means the events table is empty and some user is eligible. A week-overflow failure means some eligible user overflows. |
| CohortRetentionProofs.GroupWithoutEvents | part2/cohort_analysis.py:63-87 | A group whose user has no events has flag 0 in every week. |
| CohortRetentionProofs.UserWithoutEventsNeverActive | part2/cohort_analysis.py:63-71 | A user without events is in no month's active set for any week. |
| CohortRetentionProofs.UserWithoutEvents | part2/cohort_analysis.py:63-87 | An eligible user without events keeps a row in the per-user table, with all eight flags 0. |
| CohortRetentionProofs.QuietGroupRow | part2/cohort_analysis.py:84-87 | A group whose flag is 0 in every week has a per-user row of eight zeros. |
| CohortRetentionProofs.EligibleUserInOneRow | part2/cohort_analysis.py:58-118 | With accepted dates and month starts, a non-empty events table and no week overflow, the table exists and every eligible user's signup month is the month of exactly one row. |
| CohortRetentionProofs.DescribedMonthOnce | part2/cohort_analysis.py:58-118 | In any table with the meaning above, an eligible user's signup month is the month of exactly one row. |
| CohortRetentionProofs.AscendingUnique | part2/cohort_analysis.py:96-99 | Two strictly ascending month lists with the same elements are equal. |
| CohortRetentionProofs.ReferenceOrderIndependent | part2/cohort_analysis.py:62-114 | The reference sets depend only on which users and events exist. |
| CohortRetentionProofs.DescriptionUnique | part2/cohort_analysis.py:56-146 | At most one table has the meaning above for a given set of users and events. |
| CohortRetentionProofs.OrderIndependent | part2/cohort_analysis.py:56-146 | With accepted dates and month starts, reordering or repeating input rows changes neither the table nor, when there is none, the error. |
| CohortRetentionProofs.ReorderedAccepted | part2/cohort_analysis.py:57-58 | Reordered users whose dates and month starts are all accepted pass both date tests, in either order. |
| CohortRetentionProofs.SameBranches | part2/cohort_analysis.py:62-73 | With the same users and events, there is an eligible user in both orders or in neither, and the events table is empty in both or in neither. |
| CohortRetentionProofs.SameOverflowBranch | part2/cohort_analysis.py:63-80 | With the same users and events, the week arithmetic overflows in both orders or in neither. |
| CohortRetentionProofs.OverflowOrderIndependent | part2/cohort_analysis.py:62-80 | Whether the week arithmetic overflows depends only on which users and events exist. |
| CohortRetentionProofs.StraddlingSignups | part2/cohort_analysis.py:62 | 2025-11-01 is before the cutoff and 2025-11-10 is not. |
| CohortRetentionProofs.StraddlingMonthSets | part2/cohort_analysis.py:62-114 | In the two-user example, November 2025 is the only eligible month, with two users of which one is active in week 1. |
| CohortRetentionProofs.StraddlingAccepted | part2/cohort_analysis.py:57-58 | In the two-user example, both signup dates and their month start are accepted. |
| CohortRetentionProofs.StraddlingNoOverflow | part2/cohort_analysis.py:66-80 | In the two-user example no week boundary leaves the nanosecond range. |
| CohortRetentionProofs.StraddlingMonthCountsAllSignups | part2/cohort_analysis.py:62-122 | In the two-user example, the table has one row, November 2025, whose week-1 value is 50 percent because the ineligible user counts in the size. |
| CohortRetentionProofs.LateSignupRaises | part2/cohort_analysis.py:56-80 | A single user who signed up on 2262-04-01, with cutoff 2262-04-11 and only another user's event, makes the script raise: week 3 would start past the last timestamp. |
| CohortRetentionProofs.EarlySeptemberSignupRaises | part2/cohort_analysis.py:57-58 | A single user who signed up on 1677-09-25 makes line 58 raise, naming that user: the date is accepted but 1677-09-01 is not. |
| CohortRetentionProofs.EmptyEventsRaises | part2/cohort_analysis.py:53-73 | One user eligible under the script's cutoff and an empty events table make the first `is_active` comparison raise. |
| CohortRetentionProofs.HalfActiveSingleMonth | part2/cohort_analysis.py:118-122 | A table with the meaning above whose only month has one active user of two shows one row at 50 percent in week 1. |
| CohortRetentionProofs.SixOfTen | part2/cohort_analysis.py:121-122 | Six of ten users give 60 percent. |
| UserSegmentation.ExtractUserSearchHistory | part3/user_segmentation_pipeline.py:33-40 | One history per user bucket, in bucket order, with that bucket's key as id and its query keys in order. |
| UserSegmentation.UserRecord.constructor | part3/user_segmentation_pipeline.py:55 | A new record holds the given id, queries and embedding and no segment. |
| UserSegmentation.JoinedAt | part3/user_segmentation_pipeline.py:52 | `JoinWithSpace` (`' '.join`) holds every query at its offset, followed by a single space unless it is the last, and ends after the last. |
| UserSegmentation.ConvertSearchQueriesToVectors | part3/user_segmentation_pipeline.py:48-57 | One new, distinct record per history, in order, with the same id and queries, the encoding of the space-joined queries, and no segment. |
| UserSegmentation.ClusterIntoSegments | part3/user_segmentation_pipeline.py:61-69 | Fails, changing nothing, exactly when there are fewer records than the five clusters. Otherwise record i gets label i as long as there are labels; other records keep their segment; ids, queries and embeddings are untouched; the same list is returned. |
| UserSegmentation.CountQueriesPerSegment | part3/user_segmentation_pipeline.py:80-98 | Fails exactly when a record has no segment, at the first such record; otherwise five lists, list k holding in order the queries of the records in segment k. |
| UserSegmentation.PrefixStep | part3/user_segmentation_pipeline.py:88-98 | One more user extends that user's segment list by its queries and leaves the other lists alone. |
| UserSegmentation.SegmentsStep | part3/user_segmentation_pipeline.py:88-98 | One more user extends the list of its own segment, 0 to 4, by its queries, and leaves the other four lists as they were. |
| UserSegmentation.QueriesOfSegmentAppend | part3/user_segmentation_pipeline.py:88-98 | Grouping two runs of users one after the other concatenates their groupings. |
| UserSegmentation.QueriesOfSegmentMembers | part3/user_segmentation_pipeline.py:88-98 | A query is in segment k's list exactly when some user in segment k searched for it. |
| UserSegmentation.SegmentCountStep | part3/user_segmentation_pipeline.py:88-98 | One more user adds its query counts to its own segment's list only. |
| UserSegmentation.ClusteredCountStep | part3/user_segmentation_pipeline.py:88-98 | One more user adds its query counts to the clustered queries exactly when its segment is 0 to 4. |
| UserSegmentation.SegmentCounts | part3/user_segmentation_pipeline.py:88-98 | Each query occurs in the five lists together as often as among the queries of users in segments 0 to 4. |
| UserSegmentation.SegmentsPartitionQueries | part3/user_segmentation_pipeline.py:88-98 | The five lists partition the queries of users in segments 0 to 4, with multiplicity: nothing is lost or counted twice. |
| UserSegmentation.StoreUsersSegments | part3/user_segmentation_pipeline.py:114-130 | Succeeds exactly when every segment has a label. The request then has two entries per record, an index action naming the index and then the record's id with its label. Otherwise it fails at the first record whose segment is missing or unlabelled. |
| UserSegmentation.SegmentUsers | part3/user_segmentation_pipeline.py:72-134 | The whole script succeeds exactly when there are at least five users and k-means labels every user with a cluster from 0 to 4; with fewer users it fails at the clustering step. Its request then pairs every bucket's user id, in bucket order, with the label of that user's cluster. |

## Left out

- Database access, `read_sql` and the SQL cohort query: I/O in the cohort script. The two
  tables are inputs.
- The search-engine client: the `ping` and exit, `search`, `indices.create` and `bulk`. These
  are network I/O. The aggregation response is an input, and the bulk body is the result.
- The aggregation size limits (20000 users, 100 queries per user) are applied by the search
  engine, not by the script.
- The sentence encoder and k-means are foreign ML libraries. They are parameters, and the model
  states what is done with their outputs.
- Plotting, and the conversion of the cohort month to a date index, are presentation only.
- The aggregation at `part2/cohort_analysis.py:91-94` is overwritten at once and has no effect.
- `part1/benchmark_queries.py` and `part3/populating_elastic_data.py` are not part of this model.
  They time database queries, or bulk-load a file with the same action/document pairing as
  `StoreUsersSegments`.
- RetentionRate: does not model `round(..., 2)` on floating point. The rate is the exact real
  `count * 100 / total`, so values such as 33.33 appear unrounded.
- UserWeekly: keeps the per-user groups in order of first appearance rather than pandas' sorted
  order. The next step groups again by month, so the final table does not depend on it.
- CountQueriesPerSegment: returns the five lists instead of printing a `Counter` of each. The
  counts are the lists' multisets (`SegmentsPartitionQueries`).
- ClusterIntoSegments: requires the records to be distinct objects. `ConvertSearchQueriesToVectors`
  guarantees this, but aliasing between records is not modelled.
- SegmentUsers: the index creation, which raises when the index exists, is not modelled. Apart
  from its rule that there must be at least as many samples as clusters, k-means is treated as a
  total function: other ways its fit can raise are not modelled.
- Missing signup dates: `signupDate` is always a date. A NULL date becomes NaT, which fails the
  cutoff comparison and is left out of the cohort sizes, so the script drops such a user
  silently. Removing those users before the call gives the same table. Missing event timestamps
  are not modelled either.
- Time of day of a signup: signup dates are calendar dates whose instant is their midnight, as a
  `DATE` column read into pandas is. Event timestamps are integer microseconds. Pandas'
  nanosecond resolution, and its range limit on event timestamps, are not modelled.
