/** The tabular reports built from the weekly statistics:
    `create_hours_report` (users by weeks, with row and column totals),
    `create_no_worklog_report` and `create_tasks_count_report`. */
module Reports {
  import opened Base
  import opened Windows
  import opened Records
  import opened Tally
  import opened Sorting
  import opened Analytics
  import opened Collect

  // -----------------------------------------------------------------------
  // Hours report

  /** One user's line: the hours per week, in week order, and their sum. */
  datatype HoursRow = HoursRow(user: string, cells: seq<real>, total: real)

  /** The table: one column per week, the user lines sorted by their total,
      and the closing totals line (per week, and over everything). */
  datatype HoursReport = HoursReport(
    columns: seq<WeekLabel>,
    rows: seq<HoursRow>,
    totals: seq<real>,
    grandTotal: real)

  /** The per-user hours map a table is built from. */
  function Worked(s: WeeklyStat): map<string, real> { s.workedHours }

  /** Every user with an entry in the selected map of some week. */
  function AllUsers(weekly: seq<WeeklyStat>, sel: WeeklyStat -> map<string, real>): set<string>
  {
    set i, u | 0 <= i < |weekly| && u in sel(weekly[i]) :: u
  }

  /** `users` lists the members of `s`, each once: the iteration order of a
      Python set, which the model takes as given. */
  ghost predicate Enumerates(users: seq<string>, s: set<string>)
  {
    && (forall i, j | 0 <= i < j < |users| :: users[i] != users[j])
    && (forall u :: u in users <==> u in s)
  }

  /** A user's line, the missing weeks filled with zero. */
  function RowFor(weekly: seq<WeeklyStat>, u: string, sel: WeeklyStat -> map<string, real>): (r: HoursRow)
    ensures r.user == u && |r.cells| == |weekly|
    ensures forall i | 0 <= i < |weekly| :: r.cells[i] == Get(sel(weekly[i]), u)
    ensures r.total == Sum(r.cells)
  {
    var cells := seq(|weekly|, i requires 0 <= i < |weekly| => Get(sel(weekly[i]), u));
    HoursRow(u, cells, Sum(cells))
  }

  /** The lines in the order the users are listed. */
  function RowsFor(weekly: seq<WeeklyStat>, users: seq<string>, sel: WeeklyStat -> map<string, real>): (rows: seq<HoursRow>)
    ensures |rows| == |users|
    ensures forall k | 0 <= k < |users| :: rows[k] == RowFor(weekly, users[k], sel)
  {
    if |users| == 0 then [] else [RowFor(weekly, users[0], sel)] + RowsFor(weekly, users[1..], sel)
  }

  function RowTotal(r: HoursRow): real { r.total }

  /** The lines sorted by total, largest first, equal totals in user order.
      pandas' default sort is not stable, but as `users` may be in any order,
      each tie order it could produce is this result for some `users`. */
  function SortedRows(weekly: seq<WeeklyStat>, users: seq<string>, sel: WeeklyStat -> map<string, real>): (rows: seq<HoursRow>)
    ensures |rows| == |users|
  {
    SortDescCorrect(RowsFor(weekly, users, sel), RowTotal);
    SortDesc(RowsFor(weekly, users, sel), RowTotal)
  }

  /** The cell of column `j`; zero outside the line. */
  function Cell(r: HoursRow, j: int): real
  {
    if 0 <= j < |r.cells| then r.cells[j] else 0.0
  }

  /** Column `j` added up over the lines. */
  function ColumnSum(rows: seq<HoursRow>, j: int): real
  {
    if |rows| == 0 then 0.0 else Cell(rows[0], j) + ColumnSum(rows[1..], j)
  }

  /** The totals column added up over the lines. */
  function RowsTotal(rows: seq<HoursRow>): real
  {
    if |rows| == 0 then 0.0 else rows[0].total + RowsTotal(rows[1..])
  }

  /** The closing line's week cells. */
  function ColumnTotals(rows: seq<HoursRow>, n: nat): (t: seq<real>)
    ensures |t| == n
  {
    seq(n, j requires 0 <= j < n => ColumnSum(rows, j))
  }

  /** The week labels in order. */
  function WeekNames(weekly: seq<WeeklyStat>): (names: seq<WeekLabel>)
    ensures |names| == |weekly|
  {
    seq(|weekly|, i requires 0 <= i < |weekly| => weekly[i].name)
  }

  /** `create_hours_report`: a line per author of worked hours, the lines
      sorted by total, largest first, then the column sums as the closing
      line. */
  function CreateHoursReport(weekly: seq<WeeklyStat>, users: seq<string>): (rep: HoursReport)
    requires Enumerates(users, AllUsers(weekly, Worked))
    ensures |rep.columns| == |weekly| && |rep.totals| == |weekly| && |rep.rows| == |users|
    ensures forall i | 0 <= i < |weekly| :: rep.columns[i] == weekly[i].name
  {
    var rows := SortedRows(weekly, users, Worked);
    HoursReport(WeekNames(weekly), rows,
                ColumnTotals(rows, |weekly|), RowsTotal(rows))
  }

  /** A permutation of a repetition-free sequence is repetition-free. */
  lemma PermutationDistinct<T>(a: seq<T>, b: seq<T>)
    requires multiset(a) == multiset(b)
    requires forall i, j | 0 <= i < j < |a| :: a[i] != a[j]
    ensures forall i, j | 0 <= i < j < |b| :: b[i] != b[j]
  {
    forall i, j | 0 <= i < j < |b| ensures b[i] != b[j] {
      if b[i] == b[j] {
        var x := b[i];
        assert b == b[..j] + [x] + b[j + 1..];
        assert x in multiset(b[..j]);
        assert multiset(b)[x] >= 2;
        DistinctCount(a, x);
      }
    }
  }

  lemma {:induction false} DistinctCount<T>(a: seq<T>, x: T)
    requires forall i, j | 0 <= i < j < |a| :: a[i] != a[j]
    ensures multiset(a)[x] <= 1
    decreases |a|
  {
    if |a| > 0 {
      var rest := a[1..];
      assert a == [a[0]] + rest;
      DistinctCount(rest, x);
      if a[0] == x {
        assert x !in rest by {
          forall k | 0 <= k < |rest| ensures rest[k] != x {
            assert rest[k] == a[k + 1];
          }
        }
      }
    }
  }

  /** The sorted lines are a permutation of the lines in user order. */
  lemma SortedRowsPermute(weekly: seq<WeeklyStat>, users: seq<string>, sel: WeeklyStat -> map<string, real>)
    ensures SortedDesc(SortedRows(weekly, users, sel), RowTotal)
    ensures multiset(SortedRows(weekly, users, sel)) == multiset(RowsFor(weekly, users, sel))
    ensures forall k | 0 <= k < |users| :: SortedRows(weekly, users, sel)[k] in RowsFor(weekly, users, sel)
    ensures forall k | 0 <= k < |users| :: RowsFor(weekly, users, sel)[k] in SortedRows(weekly, users, sel)
  {
    var rows := SortedRows(weekly, users, sel);
    var unsorted := RowsFor(weekly, users, sel);
    SortDescCorrect(unsorted, RowTotal);
    forall k | 0 <= k < |rows| ensures rows[k] in unsorted {
      assert rows[k] in multiset(rows);
    }
    forall k | 0 <= k < |unsorted| ensures unsorted[k] in rows {
      assert unsorted[k] in multiset(unsorted);
    }
  }

  /** No user has two lines. */
  lemma SortedRowsDistinct(weekly: seq<WeeklyStat>, users: seq<string>, sel: WeeklyStat -> map<string, real>)
    requires forall i, j | 0 <= i < j < |users| :: users[i] != users[j]
    ensures forall i, j | 0 <= i < j < |users| ::
      SortedRows(weekly, users, sel)[i].user != SortedRows(weekly, users, sel)[j].user
  {
    var rows := SortedRows(weekly, users, sel);
    var unsorted := RowsFor(weekly, users, sel);
    SortedRowsPermute(weekly, users, sel);
    assert forall i, j | 0 <= i < j < |unsorted| :: unsorted[i] != unsorted[j] by {
      forall i, j | 0 <= i < j < |unsorted| ensures unsorted[i] != unsorted[j] {
        assert unsorted[i].user == users[i] && unsorted[j].user == users[j];
      }
    }
    PermutationDistinct(unsorted, rows);
    forall i, j | 0 <= i < j < |rows| ensures rows[i].user != rows[j].user {
      assert rows[i] in unsorted && rows[j] in unsorted;
    }
  }

  /** Lines with the same members as the lines of `users` belong to exactly
      the listed users. */
  lemma UsersOfSameLines(rows: seq<HoursRow>, unsorted: seq<HoursRow>, users: seq<string>)
    requires forall k | 0 <= k < |rows| :: rows[k] in unsorted
    requires forall k | 0 <= k < |unsorted| :: unsorted[k] in rows
    requires |unsorted| == |users| && forall k | 0 <= k < |users| :: unsorted[k].user == users[k]
    ensures forall u :: (exists k | 0 <= k < |rows| :: rows[k].user == u) <==> u in users
  {
    forall u ensures (exists k | 0 <= k < |rows| :: rows[k].user == u) <==> u in users {
      if u in users {
        var k :| 0 <= k < |users| && users[k] == u;
        assert unsorted[k] in rows;
        var m :| 0 <= m < |rows| && rows[m] == unsorted[k];
        assert rows[m].user == u;
      }
      if exists k | 0 <= k < |rows| :: rows[k].user == u {
        var k :| 0 <= k < |rows| && rows[k].user == u;
        assert rows[k] in unsorted;
        var m :| 0 <= m < |unsorted| && unsorted[m] == rows[k];
        assert users[m] == u;
      }
    }
  }

  /** The users with a line are exactly the listed ones. */
  lemma SortedRowsUsers(weekly: seq<WeeklyStat>, users: seq<string>, sel: WeeklyStat -> map<string, real>)
    ensures forall u :: (exists k | 0 <= k < |users| :: SortedRows(weekly, users, sel)[k].user == u) <==> u in users
  {
    SortedRowsPermute(weekly, users, sel);
    UsersOfSameLines(SortedRows(weekly, users, sel), RowsFor(weekly, users, sel), users);
  }

  /** Every line is the line of its user. */
  lemma SortedRowsContents(weekly: seq<WeeklyStat>, users: seq<string>, sel: WeeklyStat -> map<string, real>)
    ensures forall k | 0 <= k < |users| ::
      SortedRows(weekly, users, sel)[k] == RowFor(weekly, SortedRows(weekly, users, sel)[k].user, sel)
  {
    var rows := SortedRows(weekly, users, sel);
    var unsorted := RowsFor(weekly, users, sel);
    SortedRowsPermute(weekly, users, sel);
    forall k | 0 <= k < |rows| ensures rows[k] == RowFor(weekly, rows[k].user, sel) {
      assert rows[k] in unsorted;
    }
  }

  /** The lines are ordered by total, largest first, and are exactly one
      line per user with worked hours in some week: each holds that user's
      hours week by week, zero where they logged nothing, and their sum. */
  lemma HoursReportRows(weekly: seq<WeeklyStat>, users: seq<string>)
    requires Enumerates(users, AllUsers(weekly, Worked))
    ensures var rep := CreateHoursReport(weekly, users);
      && SortedDesc(rep.rows, RowTotal)
      && (forall i, j | 0 <= i < j < |rep.rows| :: rep.rows[i].user != rep.rows[j].user)
      && (forall u :: (exists k | 0 <= k < |rep.rows| :: rep.rows[k].user == u) <==> u in AllUsers(weekly, Worked))
      && (forall k | 0 <= k < |rep.rows| :: rep.rows[k] == RowFor(weekly, rep.rows[k].user, Worked))
  {
    SortedRowsPermute(weekly, users, Worked);
    SortedRowsDistinct(weekly, users, Worked);
    SortedRowsUsers(weekly, users, Worked);
    SortedRowsContents(weekly, users, Worked);
  }

  lemma {:induction false} ColumnSumInsert(x: HoursRow, s: seq<HoursRow>, j: int)
    ensures ColumnSum(Insert(x, s, RowTotal), j) == Cell(x, j) + ColumnSum(s, j)
    ensures RowsTotal(Insert(x, s, RowTotal)) == x.total + RowsTotal(s)
    decreases |s|
  {
    if |s| == 0 || RowTotal(x) >= RowTotal(s[0]) {
      assert ([x] + s)[1..] == s;
    } else {
      ColumnSumInsert(x, s[1..], j);
      assert ([s[0]] + Insert(x, s[1..], RowTotal))[1..] == Insert(x, s[1..], RowTotal);
    }
  }

  /** Sorting the lines changes no column sum. */
  lemma {:induction false} ColumnSumSort(s: seq<HoursRow>, j: int)
    ensures ColumnSum(SortDesc(s, RowTotal), j) == ColumnSum(s, j)
    ensures RowsTotal(SortDesc(s, RowTotal)) == RowsTotal(s)
    decreases |s|
  {
    if |s| > 0 {
      ColumnSumSort(s[1..], j);
      ColumnSumInsert(s[0], SortDesc(s[1..], RowTotal), j);
    }
  }

  /** When every line's total is the sum of its cells, adding up the totals
      column gives the same number as adding up the closing line. */
  lemma {:induction false} GrandTotalIsSumOfTotals(rows: seq<HoursRow>, n: nat)
    requires forall k | 0 <= k < |rows| :: |rows[k].cells| == n && rows[k].total == Sum(rows[k].cells)
    ensures RowsTotal(rows) == Sum(ColumnTotals(rows, n))
    decreases |rows|
  {
    if |rows| == 0 {
      ZeroSum(n);
      assert ColumnTotals(rows, n) == seq(n, j requires 0 <= j < n => 0.0);
    } else {
      TailRowsShaped(rows, n);
      GrandTotalIsSumOfTotals(rows[1..], n);
      SumPointwise(rows[0].cells, ColumnTotals(rows[1..], n));
      ColumnTotalsCons(rows, n);
    }
  }

  /** The closing line of a non-empty table is its first line's cells added
      to the closing line of the rest. */
  lemma ColumnTotalsCons(rows: seq<HoursRow>, n: nat)
    requires |rows| > 0 && |rows[0].cells| == n
    ensures ColumnTotals(rows, n) == AddPointwise(rows[0].cells, ColumnTotals(rows[1..], n))
  {
    var both := AddPointwise(rows[0].cells, ColumnTotals(rows[1..], n));
    forall j | 0 <= j < n ensures ColumnTotals(rows, n)[j] == both[j] {
      assert ColumnSum(rows, j) == Cell(rows[0], j) + ColumnSum(rows[1..], j);
    }
  }

  lemma TailRowsShaped(rows: seq<HoursRow>, n: nat)
    requires |rows| > 0
    requires forall k | 0 <= k < |rows| :: |rows[k].cells| == n && rows[k].total == Sum(rows[k].cells)
    ensures forall k | 0 <= k < |rows[1..]| :: |rows[1..][k].cells| == n && rows[1..][k].total == Sum(rows[1..][k].cells)
  {
    forall k | 0 <= k < |rows[1..]| ensures |rows[1..][k].cells| == n && rows[1..][k].total == Sum(rows[1..][k].cells) {
      assert rows[1..][k] == rows[k + 1];
    }
  }

  lemma {:induction false} ZeroSum(n: nat)
    ensures Sum(seq(n, j requires 0 <= j < n => 0.0)) == 0.0
    decreases n
  {
    if n > 0 {
      ZeroSum(n - 1);
      assert seq(n, j requires 0 <= j < n => 0.0)[..n - 1] == seq(n - 1, j requires 0 <= j < n - 1 => 0.0);
    }
  }

  /** The bottom-right cell (the sum of the users' totals) equals the sum of
      the closing line's week cells, and is the total over every user of
      every week. */
  lemma HoursReportGrandTotal(weekly: seq<WeeklyStat>, users: seq<string>)
    requires Enumerates(users, AllUsers(weekly, Worked))
    ensures var rep := CreateHoursReport(weekly, users);
      && rep.grandTotal == Sum(rep.totals)
      && rep.grandTotal == RowsTotal(RowsFor(weekly, users, Worked))
  {
    var rep := CreateHoursReport(weekly, users);
    HoursReportRows(weekly, users);
    ColumnSumSort(RowsFor(weekly, users, Worked), 0);
    GrandTotalIsSumOfTotals(rep.rows, |weekly|);
  }

  /** Column `j` over the lines of the listed users, when week `j`'s worked
      hours tally the entries `es`, is the sum of the users' tallies. */
  lemma {:induction false} ColumnOfUsers(weekly: seq<WeeklyStat>, users: seq<string>, j: nat, es: seq<(string, real)>)
    requires j < |weekly| && weekly[j].workedHours == Totals(es)
    ensures ColumnSum(RowsFor(weekly, users, Worked), j) == SumForEach(users, es)
    decreases |users|
  {
    if |users| > 0 {
      ColumnOfUsers(weekly, users[1..], j, es);
      GetTotals(es, users[0]);
      assert RowsFor(weekly, users, Worked)[1..] == RowsFor(weekly, users[1..], Worked);
    }
  }

  /** The closing line's cell for a week whose worked hours tally the
      entries `es` is the total of those entries: no hours are lost or
      counted twice by spreading them over user lines. */
  lemma HoursReportColumnTotal(weekly: seq<WeeklyStat>, users: seq<string>, j: nat, es: seq<(string, real)>)
    requires Enumerates(users, AllUsers(weekly, Worked))
    requires j < |weekly| && weekly[j].workedHours == Totals(es)
    ensures CreateHoursReport(weekly, users).totals[j] == Total(es)
  {
    var unsorted := RowsFor(weekly, users, Worked);
    ColumnSumSort(unsorted, j);
    ColumnOfUsers(weekly, users, j, es);
    SumOverKeys(users, es);
    assert EntryKeys(es) <= (set k | k in users) by {
      forall k | k in EntryKeys(es) ensures k in users {
        assert k in weekly[j].workedHours;
      }
    }
    SumInAll(es, set k | k in users);
  }

  /** On an analysis, the closing line's cell for week `j` is the total
      hours of all collected worklogs dated inside that week's window. */
  lemma AnalyzedHoursColumnTotals(current: Instant, weeksCount: int, fetched: seq<seq<RawIssue>>,
      worklogsOf: map<string, seq<RawWorklog>>, users: seq<string>)
    requires |fetched| == |CalculateWorkingWeeks(current, weeksCount)|
    requires AnalyzeProject(current, weeksCount, fetched, worklogsOf).Ok?
    requires Enumerates(users, AllUsers(AnalyzeProject(current, weeksCount, fetched, worklogsOf).value.weekly, Worked))
    ensures var stats := AnalyzeProject(current, weeksCount, fetched, worklogsOf).value;
      var weeks := CalculateWorkingWeeks(current, weeksCount);
      var rep := CreateHoursReport(stats.weekly, users);
      forall j | 0 <= j < |weeks| ::
        rep.totals[j] == Total(HourEntries(InWindow(AllLogs(stats.full.allWorklogs), weeks[j])))
  {
    var stats := AnalyzeProject(current, weeksCount, fetched, worklogsOf).value;
    var weeks := CalculateWorkingWeeks(current, weeksCount);
    AnalyzeProjectWeeks(current, weeksCount, fetched, worklogsOf);
    forall j | 0 <= j < |weeks|
      ensures CreateHoursReport(stats.weekly, users).totals[j]
              == Total(HourEntries(InWindow(AllLogs(stats.full.allWorklogs), weeks[j])))
    {
      WeekStatWorked(stats.full, stats.full.weeksInfo[j]);
      HoursReportColumnTotal(stats.weekly, users, j, HourEntries(InWindow(AllLogs(stats.full.allWorklogs), weeks[j])));
    }
  }

  // -----------------------------------------------------------------------
  // No-worklog report

  /** `create_no_worklog_report`: every week's no-worklog list, week after
      week, without removing anything. */
  function NoWorklogReport(weekly: seq<WeeklyStat>): (r: seq<NoLogTask>)
    ensures forall t :: t in r <==> exists i | 0 <= i < |weekly| :: t in weekly[i].tasksWithoutWorklog
  {
    if |weekly| == 0 then []
    else
      var rest := NoWorklogReport(weekly[1..]);
      assert forall t :: t in rest <==> exists i | 1 <= i < |weekly| :: t in weekly[i].tasksWithoutWorklog by {
        forall t ensures t in rest <==> exists i | 1 <= i < |weekly| :: t in weekly[i].tasksWithoutWorklog {
          if t in rest {
            var i :| 0 <= i < |weekly[1..]| && t in weekly[1..][i].tasksWithoutWorklog;
            assert weekly[1..][i] == weekly[i + 1];
          }
          if exists i | 1 <= i < |weekly| :: t in weekly[i].tasksWithoutWorklog {
            var i :| 1 <= i < |weekly| && t in weekly[i].tasksWithoutWorklog;
            assert weekly[1..][i - 1] == weekly[i];
          }
        }
      }
      weekly[0].tasksWithoutWorklog + rest
  }

  /** The tasks whose week number is `k`, in order. */
  function Bucket(ts: seq<NoLogTask>, k: int): seq<NoLogTask>
  {
    if |ts| == 0 then []
    else if ts[0].week.number == k then [ts[0]] + Bucket(ts[1..], k)
    else Bucket(ts[1..], k)
  }

  /** The buckets `k`, `k + 1`, ..., `hi`, one after the other. */
  function Buckets(ts: seq<NoLogTask>, k: int, hi: int): seq<NoLogTask>
    decreases hi - k
  {
    if k > hi then [] else Bucket(ts, k) + Buckets(ts, k + 1, hi)
  }

  /** A bucket none of whose tasks carries its number is empty. */
  lemma {:induction false} BucketAbsent(ts: seq<NoLogTask>, k: int)
    requires forall i | 0 <= i < |ts| :: ts[i].week.number != k
    ensures Bucket(ts, k) == []
    decreases |ts|
  {
    if |ts| > 0 {
      BucketAbsent(ts[1..], k);
    }
  }

  lemma {:induction false} BucketsEmpty(k: int, hi: int)
    ensures Buckets([], k, hi) == []
    decreases hi - k
  {
    if k <= hi {
      BucketsEmpty(k + 1, hi);
    }
  }

  lemma {:induction false} BucketsSkip(ts: seq<NoLogTask>, k: int, hi: int)
    requires |ts| > 0 && ts[0].week.number < k
    ensures Buckets(ts, k, hi) == Buckets(ts[1..], k, hi)
    decreases hi - k
  {
    if k <= hi {
      BucketsSkip(ts, k + 1, hi);
    }
  }

  /** A head numbered `k` opens bucket `k` and stays out of the later ones. */
  lemma BucketsConsHere(ts: seq<NoLogTask>, k: int, hi: int)
    requires |ts| > 0 && k == ts[0].week.number <= hi
    ensures Buckets(ts, k, hi) == [ts[0]] + Buckets(ts[1..], k, hi)
  {
    BucketsSkip(ts, k + 1, hi);
    AppendAssoc([ts[0]], Bucket(ts[1..], k), Buckets(ts[1..], k + 1, hi));
  }

  /** The head of a list ordered by week number comes first in its buckets. */
  /** A head numbered above `k` leaves bucket `k` empty when the tail does. */
  lemma BucketsConsLater(ts: seq<NoLogTask>, k: int, hi: int)
    requires |ts| > 0 && k < ts[0].week.number <= hi
    requires Bucket(ts[1..], k) == []
    requires Buckets(ts, k + 1, hi) == [ts[0]] + Buckets(ts[1..], k + 1, hi)
    ensures Buckets(ts, k, hi) == [ts[0]] + Buckets(ts[1..], k, hi)
  {
    assert Buckets(ts, k, hi) == [] + Buckets(ts, k + 1, hi);
    assert Buckets(ts[1..], k, hi) == [] + Buckets(ts[1..], k + 1, hi);
  }

  /** The head of a list ordered by week number comes first in its buckets. */
  lemma {:induction false} BucketsCons(ts: seq<NoLogTask>, k: int, hi: int)
    requires |ts| > 0 && k <= ts[0].week.number <= hi
    requires forall i | 1 <= i < |ts| :: ts[0].week.number <= ts[i].week.number
    ensures Buckets(ts, k, hi) == [ts[0]] + Buckets(ts[1..], k, hi)
    decreases hi - k
  {
    if k == ts[0].week.number {
      BucketsConsHere(ts, k, hi);
    } else {
      BucketAbsent(ts[1..], k);
      BucketsCons(ts, k + 1, hi);
      BucketsConsLater(ts, k, hi);
    }
  }

  /** A list ordered by week number, with every number between `k` and
      `hi`, is the concatenation of its buckets. */
  lemma {:induction false} BucketsRebuild(ts: seq<NoLogTask>, k: int, hi: int)
    requires WeekNumbersAscending(ts)
    requires forall t | t in ts :: k <= t.week.number <= hi
    ensures Buckets(ts, k, hi) == ts
    decreases |ts|
  {
    if |ts| == 0 {
      BucketsEmpty(k, hi);
    } else {
      var rest := ts[1..];
      assert ts == [ts[0]] + rest;
      assert ts[0] in ts;
      BucketsRebuild(rest, k, hi);
      BucketsCons(ts, k, hi);
    }
  }

  /** When a label is the only one carrying its number, selecting by label
      is selecting by number. */
  lemma {:induction false} TasksOfWeekIsBucket(ts: seq<NoLogTask>, name: WeekLabel)
    requires forall t | t in ts && t.week.number == name.number :: t.week == name
    ensures TasksOfWeek(ts, name) == Bucket(ts, name.number)
    decreases |ts|
  {
    if |ts| > 0 {
      assert ts[0] in ts;
      TasksOfWeekIsBucket(ts[1..], name);
    }
  }

  lemma {:induction false} ReportIsBuckets(weekly: seq<WeeklyStat>, ts: seq<NoLogTask>, k: int)
    requires forall i | 0 <= i < |weekly| :: weekly[i].tasksWithoutWorklog == Bucket(ts, k + i)
    ensures NoWorklogReport(weekly) == Buckets(ts, k, k + |weekly| - 1)
    decreases |weekly|
  {
    if |weekly| > 0 {
      ReportIsBuckets(weekly[1..], ts, k + 1);
    }
  }

  /** Each collected no-worklog task carries the label of the window its
      week number names. */
  lemma AnalyzedTaskLabels(current: Instant, weeksCount: int, fetched: seq<seq<RawIssue>>,
      worklogsOf: map<string, seq<RawWorklog>>)
    requires |fetched| == |CalculateWorkingWeeks(current, weeksCount)|
    ensures var r := AnalyzeProject(current, weeksCount, fetched, worklogsOf);
      var weeks := CalculateWorkingWeeks(current, weeksCount);
      r.Ok? ==> forall t | t in r.value.full.tasksWithoutWorklog ::
        && 1 <= t.week.number <= |weeks|
        && t.week == LabelOf(t.week.number - 1, weeks[t.week.number - 1])
  {
    var r := AnalyzeProject(current, weeksCount, fetched, worklogsOf);
    var weeks := CalculateWorkingWeeks(current, weeksCount);
    CollectNoLogTasksTagged(current, weeksCount, fetched, worklogsOf);
    if r.Ok? {
      forall t | t in r.value.full.tasksWithoutWorklog
        ensures 1 <= t.week.number <= |weeks| && t.week == LabelOf(t.week.number - 1, weeks[t.week.number - 1])
      {
        var w :| 0 <= w < |weeks| && FirstReturnedIn(fetched, t.key, w) && t.week == LabelOf(w, weeks[w]);
      }
    }
  }

  /** On an analysis, week `i`'s no-worklog list is the bucket of week
      number `i + 1`. */
  lemma AnalyzedWeekBuckets(current: Instant, weeksCount: int, fetched: seq<seq<RawIssue>>,
      worklogsOf: map<string, seq<RawWorklog>>)
    requires |fetched| == |CalculateWorkingWeeks(current, weeksCount)|
    ensures var r := AnalyzeProject(current, weeksCount, fetched, worklogsOf);
      r.Ok? ==> forall i | 0 <= i < |r.value.weekly| ::
        r.value.weekly[i].tasksWithoutWorklog == Bucket(r.value.full.tasksWithoutWorklog, 1 + i)
  {
    var r := AnalyzeProject(current, weeksCount, fetched, worklogsOf);
    if r.Ok? {
      var weeks := CalculateWorkingWeeks(current, weeksCount);
      var weekly := r.value.weekly;
      var ts := r.value.full.tasksWithoutWorklog;
      AnalyzeProjectWeeks(current, weeksCount, fetched, worklogsOf);
      AnalyzedTaskLabels(current, weeksCount, fetched, worklogsOf);
      forall i | 0 <= i < |weekly| ensures weekly[i].tasksWithoutWorklog == Bucket(ts, 1 + i) {
        WeekStatEstimates(r.value.full, r.value.full.weeksInfo[i]);
        TasksOfWeekIsBucket(ts, weekly[i].name);
      }
    }
  }

  /** On an analysis, the no-worklog report is the collected
      `tasks_without_worklog` list itself: every task once, in week order.
      Re-splitting by week and joining loses, duplicates and reorders
      nothing. */
  lemma AnalyzedNoWorklogReport(current: Instant, weeksCount: int, fetched: seq<seq<RawIssue>>,
      worklogsOf: map<string, seq<RawWorklog>>)
    requires |fetched| == |CalculateWorkingWeeks(current, weeksCount)|
    ensures var r := AnalyzeProject(current, weeksCount, fetched, worklogsOf);
      r.Ok? ==>
        && NoWorklogReport(r.value.weekly) == r.value.full.tasksWithoutWorklog
        && forall i, j | 0 <= i < j < |NoWorklogReport(r.value.weekly)| ::
             NoWorklogReport(r.value.weekly)[i].key != NoWorklogReport(r.value.weekly)[j].key
  {
    var r := AnalyzeProject(current, weeksCount, fetched, worklogsOf);
    if r.Ok? {
      var weekly := r.value.weekly;
      var ts := r.value.full.tasksWithoutWorklog;
      AnalyzeProjectWeeks(current, weeksCount, fetched, worklogsOf);
      CollectNoLogTasksOrder(current, weeksCount, fetched, worklogsOf);
      AnalyzedTaskLabels(current, weeksCount, fetched, worklogsOf);
      AnalyzedWeekBuckets(current, weeksCount, fetched, worklogsOf);
      ReportIsBuckets(weekly, ts, 1);
      BucketsRebuild(ts, 1, |weekly|);
    }
  }

  // -----------------------------------------------------------------------
  // Tasks-count report

  /** `create_tasks_count_report`: each week's label with its issue count. */
  function TasksCountReport(weekly: seq<WeeklyStat>): (r: seq<(WeekLabel, nat)>)
    ensures |r| == |weekly|
  {
    seq(|weekly|, i requires 0 <= i < |weekly| => (weekly[i].name, weekly[i].totalIssues))
  }

  /** On an analysis, the tasks-count report pairs each window's label with
      the number of issues the search returned for that window. */
  lemma AnalyzedTasksCount(current: Instant, weeksCount: int, fetched: seq<seq<RawIssue>>,
      worklogsOf: map<string, seq<RawWorklog>>)
    requires |fetched| == |CalculateWorkingWeeks(current, weeksCount)|
    ensures var r := AnalyzeProject(current, weeksCount, fetched, worklogsOf);
      var weeks := CalculateWorkingWeeks(current, weeksCount);
      r.Ok? ==>
        && |TasksCountReport(r.value.weekly)| == |weeks|
        && forall i | 0 <= i < |weeks| :: TasksCountReport(r.value.weekly)[i] == (LabelOf(i, weeks[i]), |fetched[i]|)
  {
    AnalyzeProjectWeeks(current, weeksCount, fetched, worklogsOf);
  }
}
