/**
 * Weekly cohort retention, the pandas recomputation of part2/cohort_analysis.py.
 *
 * Each dataframe of the script is a sequence of rows here, and each step of the script is a
 * function from the previous table to the next:
 *   users --Eligible--> filtered_users --LeftJoin--> user_events (flags by IsActive)
 *   --UserWeekly--> user_events_weekly --CohortSums--> user_events_cohort
 *   --InnerMerge with CohortSizes(users)--> result --RetentionTable--> final columns.
 */
module CohortAnalysis {
  import opened Wrappers
  import opened Calendar

  type UserId = int

  /** Microseconds since 1970-01-01T00:00. */
  type Instant = int

  const MicrosPerWeek: int := 604_800_000_000

  /** Activity is observed in weeks 1 to 8 after signup. */
  const WeekCount: int := 8

  /** The literal eligibility cutoff of the script, '2025-11-06'. */
  const SourceCutoff: Date := Date(2025, 11, 6)

  datatype User = User(userId: UserId, signupDate: Date)

  datatype Event = Event(userId: UserId, timestamp: Instant)

  /** A row of `user_events`: a user with one of their event timestamps, or with none (NaT). */
  datatype JoinedRow = JoinedRow(user: User, timestamp: Option<Instant>)

  /** A row of `user_events_weekly`: one 0/1 flag per week for a (user_id, signup_month) group. */
  datatype UserWeeks = UserWeeks(userId: UserId, signupMonth: Month, flags: seq<int>)

  /** A row of `user_events_cohort`: the number of active users of a month, per week. */
  datatype CohortCounts = CohortCounts(cohortMonth: Month, activeUsers: seq<int>)

  /** A row of `result` after the merge with `cohorts`. */
  datatype MergedRow = MergedRow(cohortMonth: Month, activeUsers: seq<int>, totalUsersCount: int)

  /** A row of the final table: a cohort month and its eight weekly retention percentages. */
  datatype CohortRow = CohortRow(cohortMonth: Month, retention: seq<real>)

  /**
   * Why the script raises, in the order it would notice:
   * - `pd.to_datetime` rejects a signup date (line 57);
   * - the first of a signup month lies before the first nanosecond timestamp, so
   *   `to_period('M').to_timestamp()` raises (line 58);
   * - no user is eligible, so `user_events` has no rows and line 73 assigns the whole-frame copy
   *   that `apply` returns for an empty frame to a single column;
   * - the `events` table is empty, so its `timestamp` column carries no datetime type, the left
   *   merge fills it with float NaN, and the first `>=` of `is_active` (line 68) compares a float
   *   with a `Timestamp`;
   * - `is_active` adds weeks to a signup date past the last nanosecond timestamp (line 68).
   */
  datatype CohortError =
    | MalformedSignupDate(user: User)
    | MonthStartOutOfRange(user: User)
    | NoEligibleUsers
    | EmptyEvents
    | WeekBoundaryOverflow

  /** `signup_month`: the first day of the month of the signup date. */
  function SignupMonth(u: User): Month
  {
    MonthOf(u.signupDate)
  }

  /** `signup_date < cutoff`, compared as instants. */
  predicate SignedUpBefore(u: User, cutoff: Date)
  {
    Midnight(u.signupDate) < Midnight(cutoff)
  }

  /** The largest magnitude of pandas' signed 64-bit nanosecond count; the smallest value is reserved for NaT. */
  const MaxNanos: int := 0x7FFF_FFFF_FFFF_FFFF

  /** The first and the last date whose midnight pandas' nanosecond timestamps can hold. */
  const EarliestDate: Date := Date(1677, 9, 22)
  const LatestDate: Date := Date(2262, 4, 11)

  /** What `pd.to_datetime` accepts: a calendar date whose midnight fits in a nanosecond timestamp. */
  predicate Representable(d: Date)
  {
    ValidDate(d) && DateNotAfter(EarliestDate, d) && DateNotAfter(d, LatestDate)
  }

  /** The bounds of `Representable` are the last midnights inside the nanosecond range, at both ends. */
  lemma RepresentableEdges()
    ensures -MaxNanos <= Midnight(EarliestDate) * 1000 && Midnight(Date(1677, 9, 21)) * 1000 < -MaxNanos
    ensures Midnight(LatestDate) * 1000 <= MaxNanos < Midnight(Date(2262, 4, 12)) * 1000
  {
    KnownDateBeforeLowestTimestamp();
    KnownDateLowestTimestamp();
    KnownDateHighestTimestamp();
    KnownDateAfterHighestTimestamp();
  }

  /** The first user whose signup date `pd.to_datetime` would reject. */
  function FirstMalformed(users: seq<User>): (r: Option<User>)
    ensures r.None? <==> forall u :: u in users ==> Representable(u.signupDate)
    ensures r.Some? ==> r.value in users && !Representable(r.value.signupDate)
  {
    if users == [] then None
    else if !Representable(users[0].signupDate) then Some(users[0])
    else FirstMalformed(users[1..])
  }

  /** `signup_month` as a timestamp (line 58): the midnight of the first of the month fits in a nanosecond count. */
  predicate MonthStartFits(d: Date)
  {
    -MaxNanos <= Midnight(FirstDay(MonthOf(d))) * 1000
  }

  /**
   * The earliest accepted date has a month start pandas cannot hold, and the first of the next
   * month is a month start it can: accepted dates of September 1677 fail at line 58.
   */
  lemma MonthStartEdges()
    ensures Representable(EarliestDate) && !MonthStartFits(EarliestDate)
    ensures MonthStartFits(Date(1677, 10, 1)) && Representable(Date(1677, 10, 1))
  {
    KnownDateFirstOfLowestMonth();
    KnownDateFirstRepresentableMonthStart();
  }

  /** The first user whose signup month `to_timestamp` cannot convert. */
  function FirstMonthStartOutOfRange(users: seq<User>): (r: Option<User>)
    ensures r.None? <==> forall u :: u in users ==> MonthStartFits(u.signupDate)
    ensures r.Some? ==> r.value in users && !MonthStartFits(r.value.signupDate)
  {
    if users == [] then None
    else if !MonthStartFits(users[0].signupDate) then Some(users[0])
    else FirstMonthStartOutOfRange(users[1..])
  }

  /** `filtered_users`: the users who signed up before the cutoff, in their original order. */
  function Eligible(users: seq<User>, cutoff: Date): (r: seq<User>)
    ensures forall u :: u in r <==> u in users && SignedUpBefore(u, cutoff)
    ensures |r| <= |users|
  {
    if users == [] then []
    else (if SignedUpBefore(users[0], cutoff) then [users[0]] else []) + Eligible(users[1..], cutoff)
  }

  /** The timestamps of the events of one user, in the order of `events`. */
  function EventTimes(events: seq<Event>, id: UserId): (r: seq<Instant>)
    ensures forall t :: t in r <==> Event(id, t) in events
    ensures |r| <= |events|
  {
    if events == [] then []
    else (if events[0].userId == id then [events[0].timestamp] else []) + EventTimes(events[1..], id)
  }

  /** The rows a left merge produces for one user: one per event, or a single row without timestamp. */
  function JoinOne(u: User, events: seq<Event>): (r: seq<JoinedRow>)
    ensures r != []
    ensures forall x :: x in r ==> x.user == u
    ensures forall t :: JoinedRow(u, Some(t)) in r <==> Event(u.userId, t) in events
    ensures JoinedRow(u, None) in r <==> forall e :: e in events ==> e.userId != u.userId
  {
    var ts := EventTimes(events, u.userId);
    if ts == [] then
      [JoinedRow(u, None)]
    else
      var r := seq(|ts|, i requires 0 <= i < |ts| => JoinedRow(u, Some(ts[i])));
      assert forall t :: t in ts ==> JoinedRow(u, Some(t)) in r by {
        forall t | t in ts ensures JoinedRow(u, Some(t)) in r {
          var i :| 0 <= i < |ts| && ts[i] == t;
          assert r[i] == JoinedRow(u, Some(t));
        }
      }
      assert ts[0] in ts && Event(u.userId, ts[0]) in events;
      assert forall x :: x in r ==> x.timestamp.Some?;
      r
  }

  /** `pd.merge(filtered_users, events, how='left', on='user_id')`. */
  function LeftJoin(users: seq<User>, events: seq<Event>): (r: seq<JoinedRow>)
    ensures forall x :: x in r ==> x.user in users
    ensures forall u :: u in users ==> exists x :: x in r && x.user == u
    ensures forall u, t :: JoinedRow(u, Some(t)) in r <==> u in users && Event(u.userId, t) in events
    ensures forall u :: JoinedRow(u, None) in r <==> u in users && forall e :: e in events ==> e.userId != u.userId
  {
    if users == [] then []
    else
      var head := JoinOne(users[0], events);
      var rest := LeftJoin(users[1..], events);
      assert head[0] in head;
      assert forall u :: u in users <==> u == users[0] || u in users[1..];
      assert forall x :: x in head + rest <==> x in head || x in rest;
      head + rest
  }

  /** Whether instant `t` lies in the half-open week `week` after `signup`. */
  predicate InWeek(signup: Instant, t: Instant, week: int)
  {
    signup + (week - 1) * MicrosPerWeek <= t < signup + week * MicrosPerWeek
  }

  /** `is_active`: 1 when the row's timestamp lies in the given week after signup; a missing timestamp compares false. */
  function IsActive(row: JoinedRow, week: int): int
  {
    match row.timestamp
    case None => 0
    case Some(t) => if InWeek(Midnight(row.user.signupDate), t, week) then 1 else 0
  }

  /** `signup + timedelta(weeks = k)` stays within pandas' timestamps; otherwise the addition raises. */
  predicate ShiftFits(signup: Instant, weeks: int)
  {
    (signup + weeks * MicrosPerWeek) * 1000 <= MaxNanos
  }

  /**
   * Whether `is_active(row, week)` raises. The week's start is added on every row, also when the
   * timestamp is missing; its end only when the first comparison holds, as `and` stops early.
   */
  predicate ActiveOverflows(row: JoinedRow, week: int)
  {
    var signup := Midnight(row.user.signupDate);
    || !ShiftFits(signup, week - 1)
    || (row.timestamp.Some? && signup + (week - 1) * MicrosPerWeek <= row.timestamp.value && !ShiftFits(signup, week))
  }

  /** Whether one of the eight `apply` calls of lines 73-80 raises on some row of `user_events`. */
  predicate ApplyOverflows(rows: seq<JoinedRow>)
  {
    exists i, w :: 0 <= i < |rows| && 1 <= w <= WeekCount && ActiveOverflows(rows[i], w)
  }

  /** A week whose computation raises makes week 8's raise too: the later weeks reach further. */
  lemma OverflowReachesWeekEight(row: JoinedRow, week: int)
    requires 1 <= week <= WeekCount
    ensures ActiveOverflows(row, week) ==> ActiveOverflows(row, WeekCount)
  {
    var signup := Midnight(row.user.signupDate);
    if week < WeekCount {
      assert signup + (week - 1) * MicrosPerWeek <= signup + (WeekCount - 1) * MicrosPerWeek;
      assert signup + week * MicrosPerWeek <= signup + (WeekCount - 1) * MicrosPerWeek;
    }
  }

  /** The `apply` calls raise exactly when the week-8 call raises on some row. */
  lemma ApplyOverflowsAtWeekEight(rows: seq<JoinedRow>)
    ensures ApplyOverflows(rows) <==> exists i :: 0 <= i < |rows| && ActiveOverflows(rows[i], WeekCount)
  {
    if ApplyOverflows(rows) {
      var i, w :| 0 <= i < |rows| && 1 <= w <= WeekCount && ActiveOverflows(rows[i], w);
      OverflowReachesWeekEight(rows[i], w);
    }
  }

  /**
   * For signups on or before 2262-02-21 week 8 starts inside the nanosecond range, from 2262-02-22
   * it does not; for signups on or before 2262-02-14 week 8 also ends inside it, from 2262-02-15
   * it does not.
   */
  lemma WeekEightEdges()
    ensures ShiftFits(Midnight(Date(2262, 2, 21)), WeekCount - 1) && !ShiftFits(Midnight(Date(2262, 2, 22)), WeekCount - 1)
    ensures ShiftFits(Midnight(Date(2262, 2, 14)), WeekCount) && !ShiftFits(Midnight(Date(2262, 2, 15)), WeekCount)
  {
    KnownDateLastFullEighthWeek();
    KnownDateFirstCutEighthWeek();
    KnownDateLastEighthWeekStart();
    KnownDateFirstLostEighthWeek();
  }

  /** The group key of `groupby(['user_id', 'signup_month'])`. */
  function GroupKey(row: JoinedRow): (UserId, Month)
  {
    (row.user.userId, SignupMonth(row.user))
  }

  /** The group keys of the joined rows, each once, in order of first appearance. */
  function DistinctKeys(rows: seq<JoinedRow>): (ks: seq<(UserId, Month)>)
    ensures forall k :: k in ks <==> exists x :: x in rows && GroupKey(x) == k
    ensures forall i, j :: 0 <= i < j < |ks| ==> ks[i] != ks[j]
  {
    if rows == [] then []
    else
      var ks := DistinctKeys(rows[..|rows| - 1]);
      var last := rows[|rows| - 1];
      assert rows == rows[..|rows| - 1] + [last];
      if GroupKey(last) in ks then ks else ks + [GroupKey(last)]
  }

  function Max(a: int, b: int): int
  {
    if a < b then b else a
  }

  /** `.max()` of one week's flag over the rows of one group; 0 stands for the empty maximum. */
  function GroupMax(rows: seq<JoinedRow>, key: (UserId, Month), week: int): int
  {
    if rows == [] then 0
    else Max(if GroupKey(rows[0]) == key then IsActive(rows[0], week) else 0, GroupMax(rows[1..], key, week))
  }

  function WeekFlags(rows: seq<JoinedRow>, key: (UserId, Month)): (flags: seq<int>)
  {
    seq(WeekCount, w requires 0 <= w < WeekCount => GroupMax(rows, key, w + 1))
  }

  /** `user_events_weekly`: one row per (user_id, signup_month) group with the maximum of each week's flag. */
  function UserWeekly(rows: seq<JoinedRow>): (weekly: seq<UserWeeks>)
  {
    var ks := DistinctKeys(rows);
    seq(|ks|, i requires 0 <= i < |ks| => UserWeeks(ks[i].0, ks[i].1, WeekFlags(rows, ks[i])))
  }

  /** Every per-user row carries one flag per observed week. */
  predicate WellFormed(weekly: seq<UserWeeks>)
  {
    forall r :: r in weekly ==> |r.flags| == WeekCount
  }

  /** `.sum()` of one week's flag over the per-user rows of one signup month. */
  function SumWeek(weekly: seq<UserWeeks>, m: Month, w: int): int
    requires WellFormed(weekly) && 0 <= w < WeekCount
  {
    if weekly == [] then 0
    else
      var last := weekly[|weekly| - 1];
      SumWeek(weekly[..|weekly| - 1], m, w) + (if last.signupMonth == m then last.flags[w] else 0)
  }

  predicate StrictlyAscending(ms: seq<Month>)
  {
    forall i, j :: 0 <= i < j < |ms| ==> MonthBefore(ms[i], ms[j])
  }

  /** Inserts a month into a strictly ascending list of distinct months. */
  function InsertMonth(m: Month, ms: seq<Month>): (r: seq<Month>)
    requires StrictlyAscending(ms)
    ensures StrictlyAscending(r)
    ensures forall x :: x in r <==> x == m || x in ms
  {
    if ms == [] then [m]
    else if m == ms[0] then ms
    else if MonthBefore(m, ms[0]) then [m] + ms
    else
      var rest := InsertMonth(m, ms[1..]);
      assert forall x :: x in rest ==> MonthBefore(ms[0], x);
      [ms[0]] + rest
  }

  /** The sorted group keys of `groupby('signup_month')`: each month once, in ascending order. */
  function SortedMonths(ms: seq<Month>): (r: seq<Month>)
    ensures StrictlyAscending(r)
    ensures forall x :: x in r <==> x in ms
  {
    if ms == [] then [] else InsertMonth(ms[|ms| - 1], SortedMonths(ms[..|ms| - 1]))
  }

  function MonthsOf(weekly: seq<UserWeeks>): (ms: seq<Month>)
  {
    seq(|weekly|, i requires 0 <= i < |weekly| => weekly[i].signupMonth)
  }

  /** `user_events_cohort`: per signup month, ascending, the sum of each week's flags. */
  function CohortSums(weekly: seq<UserWeeks>): (counts: seq<CohortCounts>)
    requires WellFormed(weekly)
  {
    var ms := SortedMonths(MonthsOf(weekly));
    seq(|ms|, i requires 0 <= i < |ms| =>
      CohortCounts(ms[i], seq(WeekCount, w requires 0 <= w < WeekCount => SumWeek(weekly, ms[i], w))))
  }

  /** The distinct ids of the users of `users` who signed up in month `m`. */
  function IdsInMonth(users: seq<User>, m: Month): set<UserId>
  {
    set u | u in users && SignupMonth(u) == m :: u.userId
  }

  /** `cohorts`: for every signup month of the UNFILTERED users, `nunique` of their ids. */
  function CohortSizes(users: seq<User>): (sizes: map<Month, int>)
    ensures forall m :: m in sizes <==> exists u :: u in users && SignupMonth(u) == m
    ensures forall m :: m in sizes ==> sizes[m] >= 1
  {
    var sizes := map m | m in (set u | u in users :: SignupMonth(u)) :: |IdsInMonth(users, m)|;
    assert forall m :: m in sizes ==> sizes[m] >= 1 by {
      forall m | m in sizes ensures sizes[m] >= 1 {
        var u :| u in users && SignupMonth(u) == m;
        assert u.userId in IdsInMonth(users, m);
      }
    }
    sizes
  }

  /** `pd.merge(user_events_cohort, cohorts, on='cohort_month')`: an inner merge in the left table's order. */
  function InnerMerge(counts: seq<CohortCounts>, sizes: map<Month, int>): (merged: seq<MergedRow>)
    ensures forall r :: r in merged ==> r.cohortMonth in sizes && r.totalUsersCount == sizes[r.cohortMonth]
    ensures forall c :: c in counts && c.cohortMonth in sizes ==>
              MergedRow(c.cohortMonth, c.activeUsers, sizes[c.cohortMonth]) in merged
    ensures forall r :: r in merged ==>
              exists c :: c in counts && c.cohortMonth in sizes && r == MergedRow(c.cohortMonth, c.activeUsers, sizes[c.cohortMonth])
  {
    if counts == [] then []
    else
      var c := counts[0];
      var head := if c.cohortMonth in sizes then [MergedRow(c.cohortMonth, c.activeUsers, sizes[c.cohortMonth])] else [];
      var rest := InnerMerge(counts[1..], sizes);
      assert forall x :: x in counts <==> x == c || x in counts[1..];
      assert forall r :: r in head + rest <==> r in head || r in rest;
      head + rest
  }

  /** `calculate_retention_rate` without the rounding: the count as a percentage of the cohort size. */
  function RetentionRate(count: int, total: int): (rate: real)
    requires total > 0
    ensures rate * total as real == count as real * 100.0
    ensures 0 <= count <= total ==> 0.0 <= rate <= 100.0
    ensures count == total ==> rate == 100.0
    ensures count == 0 ==> rate == 0.0
  {
    var share := count as real / total as real;
    assert share * total as real == count as real;
    assert 0 <= count <= total ==> 0.0 <= share <= 1.0;
    share * 100.0
  }

  /** Lines 125-132 and 146: every week's count becomes a rate and `total_users_count` is dropped. */
  function RetentionRow(row: MergedRow): (r: CohortRow)
    requires row.totalUsersCount > 0
  {
    CohortRow(row.cohortMonth,
      seq(|row.activeUsers|, i requires 0 <= i < |row.activeUsers| => RetentionRate(row.activeUsers[i], row.totalUsersCount)))
  }

  function RetentionTable(merged: seq<MergedRow>): (rows: seq<CohortRow>)
    requires forall r :: r in merged ==> r.totalUsersCount > 0
  {
    seq(|merged|, i requires 0 <= i < |merged| => RetentionRow(merged[i]))
  }

  /** The whole pandas computation, from the `users` and `events` tables to the retention table. */
  function CohortRetention(users: seq<User>, events: seq<Event>, cutoff: Date): Result<seq<CohortRow>, CohortError>
  {
    match FirstMalformed(users)
    case Some(u) => Failure(MalformedSignupDate(u))
    case None =>
      match FirstMonthStartOutOfRange(users)
      case Some(u) => Failure(MonthStartOutOfRange(u))
      case None =>
        if Eligible(users, cutoff) == [] then Failure(NoEligibleUsers)
        else if events == [] then Failure(EmptyEvents)
        else
          var joined := LeftJoin(Eligible(users, cutoff), events);
          if ApplyOverflows(joined) then Failure(WeekBoundaryOverflow)
          else
            var weekly := UserWeekly(joined);
            var merged := InnerMerge(CohortSums(weekly), CohortSizes(users));
            Success(RetentionTable(merged))
  }
}
