/**
 * What the retention table means. The reference definitions below speak only of which users and
 * events exist, never of joins, groups or sums; the lemmas show that the pipeline of
 * CohortAnalysis computes exactly them.
 */
module CohortRetentionProofs {
  import opened Wrappers
  import opened Calendar
  import opened CohortAnalysis

  /** The ids of the users of month `m` who signed up before the cutoff. */
  function EligibleIds(users: seq<User>, cutoff: Date, m: Month): set<UserId>
  {
    set u | u in users && SignedUpBefore(u, cutoff) && SignupMonth(u) == m :: u.userId
  }

  /** The ids of the eligible users of month `m` with at least one event in week `week` after signup. */
  function ActiveIds(users: seq<User>, events: seq<Event>, cutoff: Date, m: Month, week: int): set<UserId>
  {
    set u, e | u in users && e in events && SignedUpBefore(u, cutoff) && SignupMonth(u) == m
                 && e.userId == u.userId && InWeek(Midnight(u.signupDate), e.timestamp, week) :: u.userId
  }

  /** The signup months of the eligible users. */
  function EligibleMonths(users: seq<User>, cutoff: Date): set<Month>
  {
    set u | u in users && SignedUpBefore(u, cutoff) :: SignupMonth(u)
  }

  function CohortMonths(rows: seq<CohortRow>): seq<Month>
  {
    seq(|rows|, i requires 0 <= i < |rows| => rows[i].cohortMonth)
  }

  // ---------------------------------------------------------------- the week windows

  /** An event is active in week N exactly when it falls N-1 whole weeks (rounded down) after signup. */
  lemma ActiveWeekIndex(row: JoinedRow, week: int)
    ensures IsActive(row, week) == 1 <==>
      row.timestamp.Some? && week == (row.timestamp.value - Midnight(row.user.signupDate)) / MicrosPerWeek + 1
  {
    if row.timestamp.Some? {
      var d := row.timestamp.value - Midnight(row.user.signupDate);
      var q := d / MicrosPerWeek;
      assert q * MicrosPerWeek <= d < (q + 1) * MicrosPerWeek;
      if IsActive(row, week) == 1 {
        assert (week - 1) * MicrosPerWeek <= d < week * MicrosPerWeek;
      }
      if week == q + 1 {
        assert InWeek(Midnight(row.user.signupDate), row.timestamp.value, week);
      }
    }
  }

  /** The eight week windows are pairwise disjoint: one event flags at most one week. */
  lemma ActiveWeekUnique(row: JoinedRow, a: int, b: int)
    requires IsActive(row, a) == 1 && IsActive(row, b) == 1
    ensures a == b
  {
    ActiveWeekIndex(row, a);
    ActiveWeekIndex(row, b);
  }

  /** A row without a timestamp (a user without events after the left join) is active in no week. */
  lemma MissingTimestampInactive(row: JoinedRow, week: int)
    requires row.timestamp.None?
    ensures IsActive(row, week) == 0
  {
  }

  // ---------------------------------------------------------------- the per-user maximum

  /** The maximum of a group's 0/1 flags is their logical OR. */
  lemma {:induction false} GroupMaxIsOr(rows: seq<JoinedRow>, key: (UserId, Month), week: int)
    ensures GroupMax(rows, key, week) == (if exists x :: x in rows && GroupKey(x) == key && IsActive(x, week) == 1 then 1 else 0)
  {
    if rows != [] {
      GroupMaxIsOr(rows[1..], key, week);
      assert forall x :: x in rows <==> x == rows[0] || x in rows[1..];
    }
  }

  /** The per-user table has one row per group, eight 0/1 flags each. */
  lemma UserWeeklyShape(rows: seq<JoinedRow>)
    ensures WellFormed(UserWeekly(rows))
    ensures DistinctGroups(UserWeekly(rows))
    ensures Binary(UserWeekly(rows))
  {
    var weekly := UserWeekly(rows);
    var ks := DistinctKeys(rows);
    forall r, w | r in weekly && 0 <= w < |r.flags|
      ensures r.flags[w] == 0 || r.flags[w] == 1
    {
      var i :| 0 <= i < |weekly| && weekly[i] == r;
      GroupMaxIsOr(rows, ks[i], w + 1);
    }
  }

  function GroupOf(r: UserWeeks): (UserId, Month)
  {
    (r.userId, r.signupMonth)
  }

  predicate DistinctGroups(weekly: seq<UserWeeks>)
  {
    forall i, j :: 0 <= i < j < |weekly| ==> GroupOf(weekly[i]) != GroupOf(weekly[j])
  }

  predicate Binary(weekly: seq<UserWeeks>)
  {
    forall r, w :: r in weekly && 0 <= w < |r.flags| ==> r.flags[w] == 0 || r.flags[w] == 1
  }

  /** The ids of the per-user rows of month `m` whose week-`w` flag is set. */
  function FlaggedIds(weekly: seq<UserWeeks>, m: Month, w: int): set<UserId>
  {
    set r | r in weekly && r.signupMonth == m && 0 <= w < |r.flags| && r.flags[w] == 1 :: r.userId
  }

  /** Appending a per-user row adds its id to the flagged set exactly when its flag is set. */
  lemma FlaggedAppend(init: seq<UserWeeks>, last: UserWeeks, m: Month, w: int)
    requires 0 <= w < |last.flags|
    ensures FlaggedIds(init + [last], m, w) ==
      FlaggedIds(init, m, w) + (if last.signupMonth == m && last.flags[w] == 1 then {last.userId} else {})
  {
    assert forall r :: r in init + [last] <==> r in init || r == last;
  }

  /**
   * Summing 0/1 flags over rows with distinct (user_id, signup_month) counts distinct users:
   * a user adds at most one to a week's count, however many events they had that week.
   */
  lemma {:induction false} SumIsDistinctCount(weekly: seq<UserWeeks>, m: Month, w: int)
    requires WellFormed(weekly) && DistinctGroups(weekly) && Binary(weekly) && 0 <= w < WeekCount
    ensures SumWeek(weekly, m, w) == |FlaggedIds(weekly, m, w)|
  {
    if weekly != [] {
      var n := |weekly| - 1;
      var init := weekly[..n];
      var last := weekly[n];
      assert weekly == init + [last];
      assert WellFormed(init) && Binary(init) by {
        forall r | r in init ensures r in weekly { }
      }
      SumIsDistinctCount(init, m, w);
      FlaggedAppend(init, last, m, w);
    }
  }

  // ---------------------------------------------------------------- from the pipeline to the reference

  /** The groups of the joined table are exactly the (id, month) pairs of the eligible users. */
  lemma JoinedGroups(users: seq<User>, events: seq<Event>, cutoff: Date, k: (UserId, Month))
    ensures (exists x :: x in LeftJoin(Eligible(users, cutoff), events) && GroupKey(x) == k) <==>
            exists u :: u in users && SignedUpBefore(u, cutoff) && (u.userId, SignupMonth(u)) == k
  {
    var filtered := Eligible(users, cutoff);
    var joined := LeftJoin(filtered, events);
    if u :| u in users && SignedUpBefore(u, cutoff) && (u.userId, SignupMonth(u)) == k {
      assert u in filtered;
      var x :| x in joined && x.user == u;
      assert GroupKey(x) == k;
    }
  }

  /** The week-`w` flag of a group is set exactly when the reference counts that user. */
  lemma FlagMeansActive(users: seq<User>, events: seq<Event>, cutoff: Date, k: (UserId, Month), week: int)
    ensures GroupMax(LeftJoin(Eligible(users, cutoff), events), k, week) == 1 <==>
            exists u, e :: u in users && e in events && SignedUpBefore(u, cutoff) && (u.userId, SignupMonth(u)) == k
              && e.userId == u.userId && InWeek(Midnight(u.signupDate), e.timestamp, week)
  {
    var filtered := Eligible(users, cutoff);
    var joined := LeftJoin(filtered, events);
    GroupMaxIsOr(joined, k, week);
    if GroupMax(joined, k, week) == 1 {
      var x :| x in joined && GroupKey(x) == k && IsActive(x, week) == 1;
      var t := x.timestamp.value;
      assert JoinedRow(x.user, Some(t)) in joined;
      var e := Event(x.user.userId, t);
      assert x.user in users && e in events && SignedUpBefore(x.user, cutoff);
    }
    if u, e :| u in users && e in events && SignedUpBefore(u, cutoff) && (u.userId, SignupMonth(u)) == k
               && e.userId == u.userId && InWeek(Midnight(u.signupDate), e.timestamp, week) {
      assert Event(u.userId, e.timestamp) == e;
      var x := JoinedRow(u, Some(e.timestamp));
      assert x in joined && GroupKey(x) == k && IsActive(x, week) == 1;
    }
  }

  /** Row `i` of the per-user table is group `i` with the OR of each week's flags. */
  lemma UserWeeklyAt(rows: seq<JoinedRow>, i: int, w: int)
    requires 0 <= i < |DistinctKeys(rows)| && 0 <= w < WeekCount
    ensures |UserWeekly(rows)| == |DistinctKeys(rows)|
    ensures GroupOf(UserWeekly(rows)[i]) == DistinctKeys(rows)[i]
    ensures |UserWeekly(rows)[i].flags| == WeekCount
    ensures UserWeekly(rows)[i].flags[w] == GroupMax(rows, DistinctKeys(rows)[i], w + 1)
  {
  }

  /** Every flagged id is the id of an eligible user of that month with an event in that week. */
  lemma FlaggedIsActive(users: seq<User>, events: seq<Event>, cutoff: Date, m: Month, w: int, id: UserId)
    requires 0 <= w < WeekCount
    requires id in FlaggedIds(UserWeekly(LeftJoin(Eligible(users, cutoff), events)), m, w)
    ensures id in ActiveIds(users, events, cutoff, m, w + 1)
  {
    var joined := LeftJoin(Eligible(users, cutoff), events);
    var weekly := UserWeekly(joined);
    var r :| r in weekly && r.signupMonth == m && 0 <= w < |r.flags| && r.flags[w] == 1 && r.userId == id;
    var i :| 0 <= i < |weekly| && weekly[i] == r;
    UserWeeklyAt(joined, i, w);
    FlagMeansActive(users, events, cutoff, (id, m), w + 1);
    var u, e :| u in users && e in events && SignedUpBefore(u, cutoff) && (u.userId, SignupMonth(u)) == (id, m)
                && e.userId == u.userId && InWeek(Midnight(u.signupDate), e.timestamp, w + 1);
    assert u.userId == id;
  }

  /** Every eligible user of a month with an event in a week is flagged for that week. */
  lemma ActiveIsFlagged(users: seq<User>, events: seq<Event>, cutoff: Date, m: Month, w: int, id: UserId)
    requires 0 <= w < WeekCount
    requires id in ActiveIds(users, events, cutoff, m, w + 1)
    ensures id in FlaggedIds(UserWeekly(LeftJoin(Eligible(users, cutoff), events)), m, w)
  {
    var joined := LeftJoin(Eligible(users, cutoff), events);
    var ks := DistinctKeys(joined);
    var weekly := UserWeekly(joined);
    var u, e :| u in users && e in events && SignedUpBefore(u, cutoff) && SignupMonth(u) == m
                && e.userId == u.userId && InWeek(Midnight(u.signupDate), e.timestamp, w + 1) && u.userId == id;
    assert (u.userId, SignupMonth(u)) == (id, m);
    FlagMeansActive(users, events, cutoff, (id, m), w + 1);
    assert GroupMax(joined, (id, m), w + 1) == 1;
    JoinedGroups(users, events, cutoff, (id, m));
    assert (id, m) in ks;
    var i :| 0 <= i < |ks| && ks[i] == (id, m);
    UserWeeklyAt(joined, i, w);
    assert weekly[i] in weekly;
  }

  /** The per-user rows flagged for a week are exactly the eligible users active that week. */
  lemma FlaggedAreActive(users: seq<User>, events: seq<Event>, cutoff: Date, m: Month, w: int)
    requires 0 <= w < WeekCount
    ensures FlaggedIds(UserWeekly(LeftJoin(Eligible(users, cutoff), events)), m, w) == ActiveIds(users, events, cutoff, m, w + 1)
  {
    forall id | id in FlaggedIds(UserWeekly(LeftJoin(Eligible(users, cutoff), events)), m, w)
      ensures id in ActiveIds(users, events, cutoff, m, w + 1)
    {
      FlaggedIsActive(users, events, cutoff, m, w, id);
    }
    forall id | id in ActiveIds(users, events, cutoff, m, w + 1)
      ensures id in FlaggedIds(UserWeekly(LeftJoin(Eligible(users, cutoff), events)), m, w)
    {
      ActiveIsFlagged(users, events, cutoff, m, w, id);
    }
  }

  /** Every month of the per-user table is the signup month of an eligible user. */
  lemma WeeklyMonthEligible(users: seq<User>, events: seq<Event>, cutoff: Date, i: int)
    requires 0 <= i < |UserWeekly(LeftJoin(Eligible(users, cutoff), events))|
    ensures UserWeekly(LeftJoin(Eligible(users, cutoff), events))[i].signupMonth in EligibleMonths(users, cutoff)
  {
    var joined := LeftJoin(Eligible(users, cutoff), events);
    var ks := DistinctKeys(joined);
    UserWeeklyAt(joined, i, 0);
    assert ks[i] in ks;
    JoinedGroups(users, events, cutoff, ks[i]);
    var u :| u in users && SignedUpBefore(u, cutoff) && (u.userId, SignupMonth(u)) == ks[i];
  }

  /** The signup month of every eligible user is a month of the per-user table. */
  lemma EligibleMonthInWeekly(users: seq<User>, events: seq<Event>, cutoff: Date, u: User)
    requires u in users && SignedUpBefore(u, cutoff)
    ensures exists i :: 0 <= i < |UserWeekly(LeftJoin(Eligible(users, cutoff), events))|
                        && UserWeekly(LeftJoin(Eligible(users, cutoff), events))[i].signupMonth == SignupMonth(u)
  {
    var joined := LeftJoin(Eligible(users, cutoff), events);
    var ks := DistinctKeys(joined);
    JoinedGroups(users, events, cutoff, (u.userId, SignupMonth(u)));
    assert (u.userId, SignupMonth(u)) in ks;
    var i :| 0 <= i < |ks| && ks[i] == (u.userId, SignupMonth(u));
    UserWeeklyAt(joined, i, 0);
  }

  lemma MonthsOfMember(weekly: seq<UserWeeks>, m: Month)
    ensures m in MonthsOf(weekly) <==> exists i :: 0 <= i < |weekly| && weekly[i].signupMonth == m
  {
    if m in MonthsOf(weekly) {
      var i :| 0 <= i < |weekly| && MonthsOf(weekly)[i] == m;
    }
    if i :| 0 <= i < |weekly| && weekly[i].signupMonth == m {
      assert MonthsOf(weekly)[i] == m;
    }
  }

  /** A month of the per-user table is the signup month of an eligible user, and conversely. */
  lemma WeeklyMonth(users: seq<User>, events: seq<Event>, cutoff: Date, m: Month)
    ensures m in MonthsOf(UserWeekly(LeftJoin(Eligible(users, cutoff), events))) <==> m in EligibleMonths(users, cutoff)
  {
    var weekly := UserWeekly(LeftJoin(Eligible(users, cutoff), events));
    MonthsOfMember(weekly, m);
    if i :| 0 <= i < |weekly| && weekly[i].signupMonth == m {
      WeeklyMonthEligible(users, events, cutoff, i);
    }
    if m in EligibleMonths(users, cutoff) {
      var u :| u in users && SignedUpBefore(u, cutoff) && SignupMonth(u) == m;
      EligibleMonthInWeekly(users, events, cutoff, u);
    }
  }

  /** The inner merge keeps every row whose month has a cohort size. */
  lemma {:induction false} InnerMergeKeepsAll(counts: seq<CohortCounts>, sizes: map<Month, int>)
    requires forall c :: c in counts ==> c.cohortMonth in sizes
    ensures |InnerMerge(counts, sizes)| == |counts|
    ensures forall i :: 0 <= i < |counts| ==>
      InnerMerge(counts, sizes)[i] == MergedRow(counts[i].cohortMonth, counts[i].activeUsers, sizes[counts[i].cohortMonth])
  {
    if counts != [] {
      assert counts[0] in counts;
      assert forall c :: c in counts[1..] ==> c in counts;
      InnerMergeKeepsAll(counts[1..], sizes);
    }
  }

  /** Row `i` of `user_events_cohort` is the `i`-th month in ascending order with its eight sums. */
  lemma CohortSumsAt(weekly: seq<UserWeeks>, i: int, w: int)
    requires WellFormed(weekly) && 0 <= i < |SortedMonths(MonthsOf(weekly))| && 0 <= w < WeekCount
    ensures |CohortSums(weekly)| == |SortedMonths(MonthsOf(weekly))|
    ensures CohortSums(weekly)[i].cohortMonth == SortedMonths(MonthsOf(weekly))[i]
    ensures |CohortSums(weekly)[i].activeUsers| == WeekCount
    ensures CohortSums(weekly)[i].activeUsers[w] == SumWeek(weekly, SortedMonths(MonthsOf(weekly))[i], w)
  {
  }

  /** When every month has a positive cohort size, the final table has one row per count row. */
  lemma TableOfCounts(counts: seq<CohortCounts>, sizes: map<Month, int>)
    requires forall i :: 0 <= i < |counts| ==> counts[i].cohortMonth in sizes && sizes[counts[i].cohortMonth] >= 1
    ensures forall r :: r in InnerMerge(counts, sizes) ==> r.totalUsersCount > 0
    ensures |RetentionTable(InnerMerge(counts, sizes))| == |counts|
    ensures forall i :: 0 <= i < |counts| ==>
      var row := RetentionTable(InnerMerge(counts, sizes))[i];
      && row.cohortMonth == counts[i].cohortMonth
      && |row.retention| == |counts[i].activeUsers|
      && forall w :: 0 <= w < |row.retention| ==>
           row.retention[w] == RetentionRate(counts[i].activeUsers[w], sizes[counts[i].cohortMonth])
  {
    forall c | c in counts ensures c.cohortMonth in sizes {
      var i :| 0 <= i < |counts| && counts[i] == c;
    }
    InnerMergeKeepsAll(counts, sizes);
  }

  /** The cohort size of a month is the number of distinct ids, among all users, that signed up in it. */
  lemma CohortSizeIsDistinctIds(users: seq<User>, m: Month)
    requires m in CohortSizes(users)
    ensures CohortSizes(users)[m] == |IdsInMonth(users, m)|
  {
  }

  /**
   * From the per-user table on, when every month of it has a positive cohort size: row `i` of the
   * final table is the `i`-th month in ascending order, and its week-`w` value is that month's sum
   * of week-`w` flags as a percentage of the month's cohort size.
   */
  lemma TableOfWeekly(weekly: seq<UserWeeks>, sizes: map<Month, int>)
    requires WellFormed(weekly)
    requires forall i :: 0 <= i < |weekly| ==> weekly[i].signupMonth in sizes && sizes[weekly[i].signupMonth] >= 1
    ensures forall r :: r in InnerMerge(CohortSums(weekly), sizes) ==> r.totalUsersCount > 0
    ensures var rows := RetentionTable(InnerMerge(CohortSums(weekly), sizes));
            && CohortMonths(rows) == SortedMonths(MonthsOf(weekly))
            && (forall i :: 0 <= i < |rows| ==>
                  rows[i].cohortMonth in sizes && sizes[rows[i].cohortMonth] >= 1 && |rows[i].retention| == WeekCount)
            && (forall i, w :: 0 <= i < |rows| && 0 <= w < WeekCount ==>
                  rows[i].retention[w] == RetentionRate(SumWeek(weekly, rows[i].cohortMonth, w), sizes[rows[i].cohortMonth]))
  {
    var ms := SortedMonths(MonthsOf(weekly));
    var counts := CohortSums(weekly);
    assert |counts| == |ms|;
    forall i | 0 <= i < |ms| ensures counts[i].cohortMonth == ms[i] && ms[i] in sizes && sizes[ms[i]] >= 1 {
      CohortSumsAt(weekly, i, 0);
      assert ms[i] in ms;
      var j :| 0 <= j < |weekly| && MonthsOf(weekly)[j] == ms[i];
    }
    TableOfCounts(counts, sizes);
    var rows := RetentionTable(InnerMerge(counts, sizes));
    assert CohortMonths(rows) == ms;
    forall i, w | 0 <= i < |rows| && 0 <= w < WeekCount
      ensures rows[i].retention[w] == RetentionRate(SumWeek(weekly, ms[i], w), sizes[ms[i]])
    {
      CohortSumsAt(weekly, i, w);
    }
  }

  /** What the main theorem says of a table computed from `users` and `events`. */
  ghost predicate Describes(rows: seq<CohortRow>, users: seq<User>, events: seq<Event>, cutoff: Date)
  {
    && StrictlyAscending(CohortMonths(rows))
    && (forall m :: m in CohortMonths(rows) <==> m in EligibleMonths(users, cutoff))
    && (forall i :: 0 <= i < |rows| ==> |IdsInMonth(users, rows[i].cohortMonth)| >= 1 && |rows[i].retention| == WeekCount)
    && (forall i, w :: 0 <= i < |rows| && 0 <= w < WeekCount ==>
          rows[i].retention[w] == RetentionRate(|ActiveIds(users, events, cutoff, rows[i].cohortMonth, w + 1)|,
                                                |IdsInMonth(users, rows[i].cohortMonth)|))
  }

  /**
   * An eligible user for whom `is_active` raises: week 8 starts past the last nanosecond timestamp,
   * or it ends past it and the user has an event at or after its start.
   */
  ghost predicate UserOverflows(u: User, events: seq<Event>)
  {
    var signup := Midnight(u.signupDate);
    || !ShiftFits(signup, WeekCount - 1)
    || (!ShiftFits(signup, WeekCount)
        && exists t :: Event(u.userId, t) in events && signup + (WeekCount - 1) * MicrosPerWeek <= t)
  }

  /** Some eligible user makes the week flags raise. */
  ghost predicate WeeksOverflow(users: seq<User>, events: seq<Event>, cutoff: Date)
  {
    exists u :: u in users && SignedUpBefore(u, cutoff) && UserOverflows(u, events)
  }

  /** The `apply` calls raise on a left join exactly when one of its users overflows. */
  lemma JoinedRowsOverflow(rows: seq<JoinedRow>, joinedUsers: seq<User>, events: seq<Event>)
    requires forall x :: x in rows ==> x.user in joinedUsers
    requires forall u :: u in joinedUsers ==> exists x :: x in rows && x.user == u
    requires forall u, t :: JoinedRow(u, Some(t)) in rows <==> u in joinedUsers && Event(u.userId, t) in events
    ensures ApplyOverflows(rows) <==> exists u :: u in joinedUsers && UserOverflows(u, events)
  {
    ApplyOverflowsAtWeekEight(rows);
    if ApplyOverflows(rows) {
      var i :| 0 <= i < |rows| && ActiveOverflows(rows[i], WeekCount);
      var x := rows[i];
      assert x in rows;
      if x.timestamp.Some? {
        assert JoinedRow(x.user, Some(x.timestamp.value)) in rows;
      }
      assert UserOverflows(x.user, events);
    }
    if u :| u in joinedUsers && UserOverflows(u, events) {
      var signup := Midnight(u.signupDate);
      if !ShiftFits(signup, WeekCount - 1) {
        var x :| x in rows && x.user == u;
        var i :| 0 <= i < |rows| && rows[i] == x;
        assert ActiveOverflows(rows[i], WeekCount);
      } else {
        var t :| Event(u.userId, t) in events && signup + (WeekCount - 1) * MicrosPerWeek <= t;
        assert JoinedRow(u, Some(t)) in rows;
        var i :| 0 <= i < |rows| && rows[i] == JoinedRow(u, Some(t));
        assert ActiveOverflows(rows[i], WeekCount);
      }
    }
  }

  /** The script's week flags raise exactly when some eligible user overflows. */
  lemma OverflowIffLateUser(users: seq<User>, events: seq<Event>, cutoff: Date)
    ensures ApplyOverflows(LeftJoin(Eligible(users, cutoff), events)) <==> WeeksOverflow(users, events, cutoff)
  {
    JoinedRowsOverflow(LeftJoin(Eligible(users, cutoff), events), Eligible(users, cutoff), events);
  }

  /**
   * The script produces a table exactly when every signup date and the first of its month are
   * representable, some user is eligible, the events table has rows and no eligible user makes
   * the week arithmetic overflow. The table then lists the signup months of the eligible users, each once and in
   * ascending order; a month's week-N value is the share, in percent, of the month's distinct users
   * (all users, filtered or not) that are eligible and have an event in week N after signup.
   */
  lemma CohortRetentionCorrect(users: seq<User>, events: seq<Event>, cutoff: Date)
    ensures CohortRetention(users, events, cutoff).Success? <==>
              && (forall u :: u in users ==> Representable(u.signupDate))
              && (forall u :: u in users ==> MonthStartFits(u.signupDate))
              && (exists u :: u in users && SignedUpBefore(u, cutoff))
              && events != []
              && !WeeksOverflow(users, events, cutoff)
    ensures CohortRetention(users, events, cutoff).Success? ==>
              Describes(CohortRetention(users, events, cutoff).value, users, events, cutoff)
  {
    if FirstMalformed(users).None? && FirstMonthStartOutOfRange(users).None? {
      if Eligible(users, cutoff) == [] {
        forall u | u in users ensures !SignedUpBefore(u, cutoff) {
          assert u !in Eligible(users, cutoff);
        }
      } else if events != [] {
        assert Eligible(users, cutoff)[0] in Eligible(users, cutoff);
        OverflowIffLateUser(users, events, cutoff);
        if !WeeksOverflow(users, events, cutoff) {
          EligibleTableDescribed(users, events, cutoff);
        }
      }
    }
  }

  /**
   * With representable dates and month starts, an eligible user, some event and no overflow, the
   * table exists and has the meaning above.
   */
  lemma EligibleTableDescribed(users: seq<User>, events: seq<Event>, cutoff: Date)
    requires forall u :: u in users ==> Representable(u.signupDate) && MonthStartFits(u.signupDate)
    requires Eligible(users, cutoff) != [] && events != []
    requires !WeeksOverflow(users, events, cutoff)
    ensures CohortRetention(users, events, cutoff).Success?
    ensures Describes(CohortRetention(users, events, cutoff).value, users, events, cutoff)
  {
    assert FirstMalformed(users) == None && FirstMonthStartOutOfRange(users) == None;
    OverflowIffLateUser(users, events, cutoff);
    var joined := LeftJoin(Eligible(users, cutoff), events);
    var weekly := UserWeekly(joined);
    UserWeeklyShape(joined);
    var sizes := CohortSizes(users);
    forall i | 0 <= i < |weekly| ensures weekly[i].signupMonth in sizes && sizes[weekly[i].signupMonth] >= 1 {
      WeeklyMonthEligible(users, events, cutoff, i);
      var u :| u in users && SignedUpBefore(u, cutoff) && SignupMonth(u) == weekly[i].signupMonth;
    }
    TableOfWeekly(weekly, sizes);
    var rows := RetentionTable(InnerMerge(CohortSums(weekly), sizes));
    assert CohortRetention(users, events, cutoff) == Success(rows);
    forall m ensures m in CohortMonths(rows) <==> m in EligibleMonths(users, cutoff) {
      WeeklyMonth(users, events, cutoff, m);
    }
    forall i | 0 <= i < |rows| ensures |IdsInMonth(users, rows[i].cohortMonth)| >= 1 {
      CohortSizeIsDistinctIds(users, rows[i].cohortMonth);
    }
    forall i, w | 0 <= i < |rows| && 0 <= w < WeekCount
      ensures rows[i].retention[w] == RetentionRate(|ActiveIds(users, events, cutoff, rows[i].cohortMonth, w + 1)|,
                                                    |IdsInMonth(users, rows[i].cohortMonth)|)
    {
      CohortSizeIsDistinctIds(users, rows[i].cohortMonth);
      SumIsDistinctCount(weekly, rows[i].cohortMonth, w);
      FlaggedAreActive(users, events, cutoff, rows[i].cohortMonth, w);
    }
  }

  // ---------------------------------------------------------------- consequences

  lemma {:induction false} SubsetCardinality(a: set<UserId>, b: set<UserId>)
    requires a <= b
    ensures |a| <= |b|
  {
    assert b == a + (b - a);
    assert a * (b - a) == {};
  }

  /**
   * Only eligible users are counted, and only users of the month: the numerator is at most the
   * number of eligible users of the month, which is at most `total_users_count`.
   */
  lemma ActiveWithinCohort(users: seq<User>, events: seq<Event>, cutoff: Date, m: Month, week: int)
    ensures ActiveIds(users, events, cutoff, m, week) <= EligibleIds(users, cutoff, m) <= IdsInMonth(users, m)
    ensures |ActiveIds(users, events, cutoff, m, week)| <= |EligibleIds(users, cutoff, m)| <= |IdsInMonth(users, m)|
  {
    SubsetCardinality(ActiveIds(users, events, cutoff, m, week), EligibleIds(users, cutoff, m));
    SubsetCardinality(EligibleIds(users, cutoff, m), IdsInMonth(users, m));
  }

  /** Every retention value of the table lies between 0 and 100 percent. */
  lemma RetentionWithinBounds(users: seq<User>, events: seq<Event>, cutoff: Date)
    ensures var r := CohortRetention(users, events, cutoff);
      r.Success? ==>
        forall i, w :: 0 <= i < |r.value| && 0 <= w < |r.value[i].retention| ==> 0.0 <= r.value[i].retention[w] <= 100.0
  {
    CohortRetentionCorrect(users, events, cutoff);
    if CohortRetention(users, events, cutoff).Success? {
      DescribedWithinBounds(CohortRetention(users, events, cutoff).value, users, events, cutoff);
    }
  }

  /** A table the main theorem describes holds percentages only. */
  lemma DescribedWithinBounds(rows: seq<CohortRow>, users: seq<User>, events: seq<Event>, cutoff: Date)
    requires Describes(rows, users, events, cutoff)
    ensures forall i, w :: 0 <= i < |rows| && 0 <= w < |rows[i].retention| ==> 0.0 <= rows[i].retention[w] <= 100.0
  {
    forall i, w | 0 <= i < |rows| && 0 <= w < |rows[i].retention|
      ensures 0.0 <= rows[i].retention[w] <= 100.0
    {
      ActiveWithinCohort(users, events, cutoff, rows[i].cohortMonth, w + 1);
    }
  }

  /**
   * A failure names its cause: a signup date `pd.to_datetime` rejects, reported for a user who has
   * one, exactly when there is such a date; a month start `to_timestamp` cannot hold, reported for
   * a user who has one, exactly when the dates are accepted and there is such a month start; a
   * missing eligible user; an empty events table; or an eligible user whose week arithmetic
   * overflows.
   */
  lemma FailureCauses(users: seq<User>, events: seq<Event>, cutoff: Date)
    ensures var r := CohortRetention(users, events, cutoff);
      r.Failure? ==> (r.error.MalformedSignupDate? <==> exists u :: u in users && !Representable(u.signupDate))
    ensures var r := CohortRetention(users, events, cutoff);
      r.Failure? && r.error.MalformedSignupDate? ==> r.error.user in users && !Representable(r.error.user.signupDate)
    ensures var r := CohortRetention(users, events, cutoff);
      r.Failure? ==> (r.error.MonthStartOutOfRange? <==>
                        && (forall u :: u in users ==> Representable(u.signupDate))
                        && exists u :: u in users && !MonthStartFits(u.signupDate))
    ensures var r := CohortRetention(users, events, cutoff);
      r.Failure? && r.error.MonthStartOutOfRange? ==> r.error.user in users && !MonthStartFits(r.error.user.signupDate)
    ensures var r := CohortRetention(users, events, cutoff);
      r.Failure? && r.error.NoEligibleUsers? ==> forall u :: u in users ==> !SignedUpBefore(u, cutoff)
    ensures var r := CohortRetention(users, events, cutoff);
      r.Failure? && r.error.EmptyEvents? ==> events == [] && exists u :: u in users && SignedUpBefore(u, cutoff)
    ensures var r := CohortRetention(users, events, cutoff);
      r.Failure? && r.error.WeekBoundaryOverflow? ==> WeeksOverflow(users, events, cutoff)
  {
    var r := CohortRetention(users, events, cutoff);
    if r.Failure? && r.error.NoEligibleUsers? {
      forall u | u in users ensures !SignedUpBefore(u, cutoff) {
        assert u !in Eligible(users, cutoff);
      }
    }
    if r.Failure? && r.error.EmptyEvents? {
      assert Eligible(users, cutoff)[0] in Eligible(users, cutoff);
    }
    if r.Failure? && r.error.WeekBoundaryOverflow? {
      OverflowIffLateUser(users, events, cutoff);
    }
  }

  /** A group whose user has no events is flagged in no week. */
  lemma GroupWithoutEvents(users: seq<User>, events: seq<Event>, cutoff: Date, k: (UserId, Month), week: int)
    requires forall e :: e in events ==> e.userId != k.0
    ensures GroupMax(LeftJoin(Eligible(users, cutoff), events), k, week) == 0
  {
    FlagMeansActive(users, events, cutoff, k, week);
    GroupMaxIsOr(LeftJoin(Eligible(users, cutoff), events), k, week);
  }

  /** A user without events is counted in no month and no week. */
  lemma UserWithoutEventsNeverActive(users: seq<User>, events: seq<Event>, cutoff: Date, id: UserId)
    requires forall e :: e in events ==> e.userId != id
    ensures forall m, week :: id !in ActiveIds(users, events, cutoff, m, week)
  {
  }

  /** An eligible user without events keeps a row in the per-user table, with all eight flags 0. */
  lemma UserWithoutEvents(users: seq<User>, events: seq<Event>, cutoff: Date, u: User)
    requires u in users && SignedUpBefore(u, cutoff)
    requires forall e :: e in events ==> e.userId != u.userId
    ensures exists r :: r in UserWeekly(LeftJoin(Eligible(users, cutoff), events))
                        && GroupOf(r) == (u.userId, SignupMonth(u))
                        && |r.flags| == WeekCount && forall w :: 0 <= w < WeekCount ==> r.flags[w] == 0
  {
    var joined := LeftJoin(Eligible(users, cutoff), events);
    var k := (u.userId, SignupMonth(u));
    JoinedGroups(users, events, cutoff, k);
    forall week | 1 <= week <= WeekCount ensures GroupMax(joined, k, week) == 0 {
      GroupWithoutEvents(users, events, cutoff, k, week);
    }
    QuietGroupRow(joined, k);
  }

  /** A group whose flag is 0 in every week has a per-user row of zeros. */
  lemma QuietGroupRow(joined: seq<JoinedRow>, k: (UserId, Month))
    requires exists x :: x in joined && GroupKey(x) == k
    requires forall week :: 1 <= week <= WeekCount ==> GroupMax(joined, k, week) == 0
    ensures exists r :: r in UserWeekly(joined) && GroupOf(r) == k
                        && |r.flags| == WeekCount && forall w :: 0 <= w < WeekCount ==> r.flags[w] == 0
  {
    var ks := DistinctKeys(joined);
    var weekly := UserWeekly(joined);
    assert k in ks;
    var i :| 0 <= i < |ks| && ks[i] == k;
    forall w | 0 <= w < WeekCount ensures weekly[i].flags[w] == 0 {
      UserWeeklyAt(joined, i, w);
    }
    UserWeeklyAt(joined, i, 0);
    assert weekly[i] in weekly;
  }

  /** Every eligible user belongs to exactly one row of the table: the row of their signup month. */
  lemma EligibleUserInOneRow(users: seq<User>, events: seq<Event>, cutoff: Date, u: User)
    requires forall v :: v in users ==> Representable(v.signupDate) && MonthStartFits(v.signupDate)
    requires u in users && SignedUpBefore(u, cutoff) && events != []
    requires !WeeksOverflow(users, events, cutoff)
    ensures CohortRetention(users, events, cutoff).Success?
    ensures var rows := CohortRetention(users, events, cutoff).value;
      exists i :: 0 <= i < |rows| && rows[i].cohortMonth == SignupMonth(u)
                  && forall j :: 0 <= j < |rows| && rows[j].cohortMonth == SignupMonth(u) ==> j == i
  {
    CohortRetentionCorrect(users, events, cutoff);
    DescribedMonthOnce(CohortRetention(users, events, cutoff).value, users, events, cutoff, u);
  }

  lemma DescribedMonthOnce(rows: seq<CohortRow>, users: seq<User>, events: seq<Event>, cutoff: Date, u: User)
    requires Describes(rows, users, events, cutoff)
    requires u in users && SignedUpBefore(u, cutoff)
    ensures exists i :: 0 <= i < |rows| && rows[i].cohortMonth == SignupMonth(u)
                        && forall j :: 0 <= j < |rows| && rows[j].cohortMonth == SignupMonth(u) ==> j == i
  {
    assert SignupMonth(u) in EligibleMonths(users, cutoff);
    assert SignupMonth(u) in CohortMonths(rows);
    var i :| 0 <= i < |rows| && CohortMonths(rows)[i] == SignupMonth(u);
    forall j | 0 <= j < |rows| && rows[j].cohortMonth == SignupMonth(u) ensures j == i {
      assert CohortMonths(rows)[j] == CohortMonths(rows)[i];
    }
  }

  /** A strictly ascending list of months is determined by its elements. */
  lemma {:induction false} AscendingUnique(a: seq<Month>, b: seq<Month>)
    requires StrictlyAscending(a) && StrictlyAscending(b)
    requires forall x :: x in a <==> x in b
    ensures a == b
  {
    assert b == [] || b[0] in b;
    if a != [] {
      assert a[0] in b && b != [] && b[0] in a;
      var j :| 0 <= j < |b| && b[j] == a[0];
      var k :| 0 <= k < |a| && a[k] == b[0];
      assert j == 0;
      assert a == [a[0]] + a[1..] && b == [b[0]] + b[1..];
      forall x ensures x in a[1..] <==> x in b[1..] {
        if x in a[1..] {
          var p :| 0 <= p < |a| - 1 && a[1..][p] == x;
          assert a[p + 1] == x && MonthBefore(a[0], x);
          assert x in b && x != b[0];
        }
        if x in b[1..] {
          var p :| 0 <= p < |b| - 1 && b[1..][p] == x;
          assert b[p + 1] == x && MonthBefore(b[0], x);
          assert x in a && x != a[0];
        }
      }
      AscendingUnique(a[1..], b[1..]);
    }
  }

  /** The reference sets depend only on which users and events exist, not on their order. */
  lemma ReferenceOrderIndependent(users: seq<User>, events: seq<Event>, users': seq<User>, events': seq<Event>,
                                  cutoff: Date, m: Month, week: int)
    requires forall u :: u in users <==> u in users'
    requires forall e :: e in events <==> e in events'
    ensures EligibleMonths(users, cutoff) == EligibleMonths(users', cutoff)
    ensures IdsInMonth(users, m) == IdsInMonth(users', m)
    ensures ActiveIds(users, events, cutoff, m, week) == ActiveIds(users', events', cutoff, m, week)
  {
  }

  /** Two tables with the same months and the same values are the same table. */
  lemma RowsEqual(rows: seq<CohortRow>, rows': seq<CohortRow>)
    requires CohortMonths(rows) == CohortMonths(rows')
    requires forall i :: 0 <= i < |rows| ==> |rows[i].retention| == |rows'[i].retention| == WeekCount
    requires forall i, w :: 0 <= i < |rows| && 0 <= w < WeekCount ==> rows[i].retention[w] == rows'[i].retention[w]
    ensures rows == rows'
  {
    assert |rows| == |CohortMonths(rows)| == |rows'|;
    forall i | 0 <= i < |rows| ensures rows[i] == rows'[i] {
      assert rows[i].cohortMonth == CohortMonths(rows)[i] == rows'[i].cohortMonth;
      assert rows[i].retention == rows'[i].retention;
    }
  }

  /** At most one table is described by a given set of users and events. */
  lemma DescriptionUnique(rows: seq<CohortRow>, rows': seq<CohortRow>, users: seq<User>, events: seq<Event>,
                          users': seq<User>, events': seq<Event>, cutoff: Date)
    requires forall u :: u in users <==> u in users'
    requires forall e :: e in events <==> e in events'
    requires Describes(rows, users, events, cutoff) && Describes(rows', users', events', cutoff)
    ensures rows == rows'
  {
    ReferenceOrderIndependent(users, events, users', events', cutoff, Month(0, 0), 0);
    AscendingUnique(CohortMonths(rows), CohortMonths(rows'));
    assert |rows| == |CohortMonths(rows)| == |CohortMonths(rows')| == |rows'|;
    forall i, w | 0 <= i < |rows| && 0 <= w < WeekCount ensures rows[i].retention[w] == rows'[i].retention[w] {
      assert rows'[i].cohortMonth == CohortMonths(rows')[i] == CohortMonths(rows)[i] == rows[i].cohortMonth;
      ReferenceOrderIndependent(users, events, users', events', cutoff, rows[i].cohortMonth, w + 1);
    }
    RowsEqual(rows, rows');
  }

  /**
   * Reordering (or repeating) input rows does not change the table, nor whether there is one. With a
   * rejected date or month start the error names the first such user, which depends on the order.
   */
  lemma OrderIndependent(users: seq<User>, events: seq<Event>, users': seq<User>, events': seq<Event>, cutoff: Date)
    requires forall u :: u in users ==> Representable(u.signupDate) && MonthStartFits(u.signupDate)
    requires forall u :: u in users <==> u in users'
    requires forall e :: e in events <==> e in events'
    ensures CohortRetention(users, events, cutoff) == CohortRetention(users', events', cutoff)
  {
    ReorderedAccepted(users, users');
    SameBranches(users, events, users', events', cutoff);
    SameOverflowBranch(users, events, users', events', cutoff);
    if CohortRetention(users, events, cutoff).Success? {
      CohortRetentionCorrect(users, events, cutoff);
      CohortRetentionCorrect(users', events', cutoff);
      DescriptionUnique(CohortRetention(users, events, cutoff).value, CohortRetention(users', events', cutoff).value,
                        users, events, users', events', cutoff);
    }
  }

  /** Reordered users whose dates and month starts are all accepted pass both date tests of `CohortRetention`. */
  lemma ReorderedAccepted(users: seq<User>, users': seq<User>)
    requires forall u :: u in users ==> Representable(u.signupDate) && MonthStartFits(u.signupDate)
    requires forall u :: u in users <==> u in users'
    ensures FirstMalformed(users) == FirstMalformed(users') == None
    ensures FirstMonthStartOutOfRange(users) == FirstMonthStartOutOfRange(users') == None
  {
    assert forall u :: u in users' ==> Representable(u.signupDate) && MonthStartFits(u.signupDate);
  }

  /** With the same users and events, `CohortRetention` takes the same branch at its eligibility and events tests. */
  lemma SameBranches(users: seq<User>, events: seq<Event>, users': seq<User>, events': seq<Event>, cutoff: Date)
    requires forall u :: u in users <==> u in users'
    requires forall e :: e in events <==> e in events'
    ensures Eligible(users, cutoff) == [] <==> Eligible(users', cutoff) == []
    ensures events == [] <==> events' == []
  {
    if Eligible(users, cutoff) != [] { assert Eligible(users, cutoff)[0] in Eligible(users', cutoff); }
    if Eligible(users', cutoff) != [] { assert Eligible(users', cutoff)[0] in Eligible(users, cutoff); }
    if events != [] { assert events[0] in events'; }
    if events' != [] { assert events'[0] in events; }
  }

  /** The week test of `CohortRetention` too gives the same answer on the same users and events. */
  lemma SameOverflowBranch(users: seq<User>, events: seq<Event>, users': seq<User>, events': seq<Event>, cutoff: Date)
    requires forall u :: u in users <==> u in users'
    requires forall e :: e in events <==> e in events'
    ensures ApplyOverflows(LeftJoin(Eligible(users, cutoff), events)) <==> ApplyOverflows(LeftJoin(Eligible(users', cutoff), events'))
  {
    OverflowOrderIndependent(users, events, users', events', cutoff);
    OverflowIffLateUser(users, events, cutoff);
    OverflowIffLateUser(users', events', cutoff);
  }

  /** Whether the week arithmetic overflows depends only on which users and events exist. */
  lemma OverflowOrderIndependent(users: seq<User>, events: seq<Event>, users': seq<User>, events': seq<Event>, cutoff: Date)
    requires forall u :: u in users <==> u in users'
    requires forall e :: e in events <==> e in events'
    ensures WeeksOverflow(users, events, cutoff) <==> WeeksOverflow(users', events', cutoff)
  {
    forall u ensures UserOverflows(u, events) <==> UserOverflows(u, events') {
      var start := Midnight(u.signupDate) + (WeekCount - 1) * MicrosPerWeek;
      if t :| Event(u.userId, t) in events && start <= t {
        assert Event(u.userId, t) in events';
      }
      if t :| Event(u.userId, t) in events' && start <= t {
        assert Event(u.userId, t) in events;
      }
    }
  }

  /** November 1, 2025 falls before the cutoff and November 10 after it. */
  lemma StraddlingSignups()
    ensures SignedUpBefore(User(1, Date(2025, 11, 1)), SourceCutoff)
    ensures !SignedUpBefore(User(2, Date(2025, 11, 10)), SourceCutoff)
  {
    KnownDateNovemberFirst();
    KnownDateNovemberTenth();
    KnownDateCutoff();
  }

  /** The reference sets of the straddling-month example below. */
  lemma StraddlingMonthSets(users: seq<User>, events: seq<Event>)
    requires users == [User(1, Date(2025, 11, 1)), User(2, Date(2025, 11, 10))]
    requires events == [Event(1, Midnight(Date(2025, 11, 1)) + 1)]
    ensures EligibleMonths(users, SourceCutoff) == {Month(2025, 11)}
    ensures |IdsInMonth(users, Month(2025, 11))| == 2
    ensures |ActiveIds(users, events, SourceCutoff, Month(2025, 11), 1)| == 1
  {
    StraddlingSignups();
    assert EligibleMonths(users, SourceCutoff) == {Month(2025, 11)};
    assert IdsInMonth(users, Month(2025, 11)) == {1, 2};
    assert ActiveIds(users, events, SourceCutoff, Month(2025, 11), 1) == {1};
  }

  /** In the two-user example, both signup dates and their month start are accepted. */
  lemma StraddlingAccepted(users: seq<User>)
    requires users == [User(1, Date(2025, 11, 1)), User(2, Date(2025, 11, 10))]
    ensures FirstMalformed(users) == None && FirstMonthStartOutOfRange(users) == None
  {
    KnownDateNovemberFirst();
    assert Representable(users[0].signupDate) && Representable(users[1].signupDate);
    assert MonthStartFits(users[0].signupDate) && MonthStartFits(users[1].signupDate);
  }

  /** In the two-user example, no week boundary leaves the nanosecond range. */
  lemma StraddlingNoOverflow(users: seq<User>, events: seq<Event>)
    requires users == [User(1, Date(2025, 11, 1)), User(2, Date(2025, 11, 10))]
    ensures !WeeksOverflow(users, events, SourceCutoff)
  {
    StraddlingSignups();
    KnownDateNovemberFirst();
    assert ShiftFits(Midnight(users[0].signupDate), WeekCount);
    assert !UserOverflows(users[0], events);
  }

  /**
   * The cohort size counts every user of the month, eligible or not: in November 2025, which the
   * cutoff splits, a month whose only eligible user is active in week 1 still shows 50 percent.
   */
  lemma StraddlingMonthCountsAllSignups(users: seq<User>, events: seq<Event>)
    requires users == [User(1, Date(2025, 11, 1)), User(2, Date(2025, 11, 10))]
    requires events == [Event(1, Midnight(Date(2025, 11, 1)) + 1)]
    ensures var r := CohortRetention(users, events, SourceCutoff);
            && r.Success? && |r.value| == 1 && r.value[0].cohortMonth == Month(2025, 11)
            && |r.value[0].retention| == WeekCount && r.value[0].retention[0] == 50.0
  {
    StraddlingMonthSets(users, events);
    StraddlingSignups();
    StraddlingAccepted(users);
    StraddlingNoOverflow(users, events);
    CohortRetentionCorrect(users, events, SourceCutoff);
    HalfActiveSingleMonth(CohortRetention(users, events, SourceCutoff).value, users, events, SourceCutoff, Month(2025, 11));
  }

  /**
   * A user who signed up on 2262-04-01, with a cutoff ten days later and only another user's event:
   * week 3 would start past the last nanosecond timestamp, so `is_active` raises although the user
   * has no events.
   */
  lemma LateSignupRaises()
    ensures CohortRetention([User(1, Date(2262, 4, 1))], [Event(2, 0)], Date(2262, 4, 11)) == Failure(WeekBoundaryOverflow)
  {
    KnownDateLateApril();
    KnownDateHighestTimestamp();
    var u := User(1, Date(2262, 4, 1));
    assert Representable(u.signupDate) && MonthStartFits(u.signupDate);
    assert FirstMalformed([u]) == None && FirstMonthStartOutOfRange([u]) == None;
    assert u in Eligible([u], Date(2262, 4, 11));
    var joined := LeftJoin(Eligible([u], Date(2262, 4, 11)), [Event(2, 0)]);
    assert JoinedRow(u, None) in joined;
    var i :| 0 <= i < |joined| && joined[i] == JoinedRow(u, None);
    assert ActiveOverflows(joined[i], 3);
  }

  /**
   * A signup on 1677-09-25 is a timestamp pandas holds, but the first of its month is not: line 58
   * raises before the cutoff is looked at.
   */
  lemma EarlySeptemberSignupRaises()
    ensures CohortRetention([User(1, Date(1677, 9, 25))], [], SourceCutoff) == Failure(MonthStartOutOfRange(User(1, Date(1677, 9, 25))))
  {
    KnownDateFirstOfLowestMonth();
    assert Representable(Date(1677, 9, 25));
    assert !MonthStartFits(Date(1677, 9, 25));
  }

  /**
   * One eligible user and an empty events table: the merged `timestamp` column holds NaN rather
   * than NaT, and the first comparison of `is_active` raises.
   */
  lemma EmptyEventsRaises()
    ensures CohortRetention([User(1, Date(2025, 11, 1))], [], SourceCutoff) == Failure(EmptyEvents)
  {
    StraddlingSignups();
    KnownDateNovemberFirst();
    var u := User(1, Date(2025, 11, 1));
    assert Representable(u.signupDate) && MonthStartFits(u.signupDate);
    assert FirstMalformed([u]) == None && FirstMonthStartOutOfRange([u]) == None;
    assert u in Eligible([u], SourceCutoff);
  }

  /** A described table whose only month has one active user out of two in week 1 shows 50 percent there. */
  lemma HalfActiveSingleMonth(rows: seq<CohortRow>, users: seq<User>, events: seq<Event>, cutoff: Date, m: Month)
    requires Describes(rows, users, events, cutoff)
    requires EligibleMonths(users, cutoff) == {m}
    requires |IdsInMonth(users, m)| == 2 && |ActiveIds(users, events, cutoff, m, 1)| == 1
    ensures |rows| == 1 && rows[0].cohortMonth == m
    ensures |rows[0].retention| == WeekCount && rows[0].retention[0] == 50.0
  {
    AscendingUnique(CohortMonths(rows), [m]);
    assert |rows| == |CohortMonths(rows)| == 1;
    assert rows[0].cohortMonth == CohortMonths(rows)[0] == m;
    assert rows[0].retention[0] == RetentionRate(1, 2);
    assert RetentionRate(1, 2) * 2.0 == 100.0;
  }

  /** Six active users out of ten give 60 percent. */
  lemma SixOfTen()
    ensures RetentionRate(6, 10) == 60.0
  {
  }
}
