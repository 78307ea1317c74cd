/** The web application's data shaping: `prepare_stats_for_webapp` turns an
    analysis into the hours table, the no-worklog list, the per-week issue
    counts and the week labels the page shows.

    The source walks every value of the dict `analyze_project` returns, and
    that dict also holds the collected data under `_full_data`, which has no
    `total_worked_hours`: `StatsEntry`, `UsersAsWritten` and
    `PrepareStatsAsWritten` model that walk and show it always fails;
    `PrepareStatsForWebapp` is the week-only version the rest of the model
    uses. */
module WebApp {
  import opened Base
  import opened Windows
  import opened Records
  import opened Sorting
  import opened Collect
  import opened Analytics
  import opened Reports

  /** The map the web table is built from: worked plus estimated hours. */
  function Combined(s: WeeklyStat): map<string, real> { s.totalWorkedHours }

  function Estimated(s: WeeklyStat): map<string, real> { s.estimatedAsWorkedHours }

  /** What the page receives. `tasksCount` is the insertion-ordered dict
      `{week label: total_issues}`. */
  datatype WebStats = WebStats(
    hoursTable: seq<HoursRow>,
    noWorklogTasks: seq<NoLogTask>,
    tasksCount: seq<(WeekLabel, nat)>,
    weeks: seq<WeekLabel>)

  /** `prepare_stats_for_webapp` over the weeks of an analysis. `users` is
      the iteration order of the set of users (see `Enumerates`). */
  function PrepareStatsForWebapp(stats: Stats, users: seq<string>): (r: WebStats)
    ensures |r.hoursTable| == |users|
    ensures |r.weeks| == |stats.weekly| && |r.tasksCount| == |stats.weekly|
    ensures forall i | 0 <= i < |stats.weekly| ::
      r.tasksCount[i].0 == r.weeks[i] && r.tasksCount[i].1 == stats.weekly[i].totalIssues
  {
    WebStats(SortedRows(stats.weekly, users, Combined), NoWorklogReport(stats.weekly),
             TasksCountReport(stats.weekly), WeekNames(stats.weekly))
  }

  /** The hours table has one line per user with worked or estimated hours
      in some week, each user once; a line holds the user's combined hours
      week by week (zero where absent) and their sum; the lines are ordered
      by that sum, largest first. */
  lemma WebHoursTable(stats: Stats, users: seq<string>)
    requires Enumerates(users, AllUsers(stats.weekly, Combined))
    ensures var t := PrepareStatsForWebapp(stats, users).hoursTable;
      && SortedDesc(t, RowTotal)
      && (forall i, j | 0 <= i < j < |t| :: t[i].user != t[j].user)
      && (forall u :: (exists k | 0 <= k < |t| :: t[k].user == u) <==> u in AllUsers(stats.weekly, Combined))
      && (forall k | 0 <= k < |t| :: t[k] == RowFor(stats.weekly, t[k].user, Combined))
  {
    SortedRowsPermute(stats.weekly, users, Combined);
    SortedRowsDistinct(stats.weekly, users, Combined);
    SortedRowsUsers(stats.weekly, users, Combined);
    SortedRowsContents(stats.weekly, users, Combined);
  }

  /** A week's combined hours for a user are their worked plus estimated
      hours, each zero when absent. */
  lemma WeekCombined(data: ProjectData, info: WeekInfo, u: string)
    ensures var s := WeekStat(data, info);
      Get(s.totalWorkedHours, u) == Get(s.workedHours, u) + Get(s.estimatedAsWorkedHours, u)
  {
    WeekStatTotals(data, info);
  }

  /** Weeks whose combined keys are the worked and the estimated keys give
      a table whose users are the hours report's plus the estimate holders. */
  lemma CombinedUsers(weekly: seq<WeeklyStat>)
    requires forall i | 0 <= i < |weekly| ::
      Combined(weekly[i]).Keys == Worked(weekly[i]).Keys + Estimated(weekly[i]).Keys
    ensures AllUsers(weekly, Combined) == AllUsers(weekly, Worked) + AllUsers(weekly, Estimated)
  {
    forall u | u in AllUsers(weekly, Combined) ensures u in AllUsers(weekly, Worked) + AllUsers(weekly, Estimated) {
      var i :| 0 <= i < |weekly| && u in Combined(weekly[i]);
      assert u in Worked(weekly[i]) || u in Estimated(weekly[i]);
    }
    forall u | u in AllUsers(weekly, Worked) + AllUsers(weekly, Estimated) ensures u in AllUsers(weekly, Combined) {
      if u in AllUsers(weekly, Worked) {
        var i :| 0 <= i < |weekly| && u in Worked(weekly[i]);
        assert u in Combined(weekly[i]);
      } else {
        var i :| 0 <= i < |weekly| && u in Estimated(weekly[i]);
        assert u in Combined(weekly[i]);
      }
    }
  }

  /** Weeks whose combined hours are worked plus estimated hours give a
      line that adds the report's line and the estimates, week by week and
      in total. */
  lemma CombinedRow(weekly: seq<WeeklyStat>, u: string)
    requires forall j | 0 <= j < |weekly| ::
      Get(Combined(weekly[j]), u) == Get(Worked(weekly[j]), u) + Get(Estimated(weekly[j]), u)
    ensures RowFor(weekly, u, Combined).cells == AddPointwise(RowFor(weekly, u, Worked).cells, RowFor(weekly, u, Estimated).cells)
    ensures RowFor(weekly, u, Combined).total == RowFor(weekly, u, Worked).total + RowFor(weekly, u, Estimated).total
  {
    var combined := RowFor(weekly, u, Combined);
    var worked := RowFor(weekly, u, Worked);
    var estimated := RowFor(weekly, u, Estimated);
    assert combined.cells == AddPointwise(worked.cells, estimated.cells);
    SumPointwise(worked.cells, estimated.cells);
  }

  /** Each week of an analysis has combined keys and hours made of its
      worked and estimated ones. */
  lemma AnalyzedWeeksCombine(data: ProjectData, u: string)
    ensures var weekly := CreateWeeklyStats(data);
      forall i | 0 <= i < |weekly| ::
        && Combined(weekly[i]).Keys == Worked(weekly[i]).Keys + Estimated(weekly[i]).Keys
        && Get(Combined(weekly[i]), u) == Get(Worked(weekly[i]), u) + Get(Estimated(weekly[i]), u)
  {
    var weekly := CreateWeeklyStats(data);
    forall i | 0 <= i < |weekly|
      ensures Combined(weekly[i]).Keys == Worked(weekly[i]).Keys + Estimated(weekly[i]).Keys
      ensures Get(Combined(weekly[i]), u) == Get(Worked(weekly[i]), u) + Get(Estimated(weekly[i]), u)
    {
      assert weekly[i] == WeekStat(data, data.weeksInfo[i]);
      WeekStatTotals(data, data.weeksInfo[i]);
      WeekCombined(data, data.weeksInfo[i], u);
    }
  }

  /** On an analysis, the web table's users are the hours report's users
      plus everyone who only has estimates, and each user's web line adds,
      week by week and in total, their report line and their estimates. */
  lemma AnalyzedWebRows(data: ProjectData, u: string)
    ensures var weekly := CreateWeeklyStats(data);
      && AllUsers(weekly, Combined) == AllUsers(weekly, Worked) + AllUsers(weekly, Estimated)
      && RowFor(weekly, u, Combined).cells == AddPointwise(RowFor(weekly, u, Worked).cells, RowFor(weekly, u, Estimated).cells)
      && RowFor(weekly, u, Combined).total == RowFor(weekly, u, Worked).total + RowFor(weekly, u, Estimated).total
  {
    AnalyzedWeeksCombine(data, u);
    CombinedUsers(CreateWeeklyStats(data));
    CombinedRow(CreateWeeklyStats(data), u);
  }

  /** On an analysis, the page's no-worklog list is the collected
      `tasks_without_worklog`, each task once, and its weeks and counts are
      the windows' labels and the number of issues fetched per window. */
  lemma AnalyzedWebLists(current: Instant, weeksCount: int, fetched: seq<seq<RawIssue>>,
      worklogsOf: map<string, seq<RawWorklog>>, users: seq<string>)
    requires |fetched| == |CalculateWorkingWeeks(current, weeksCount)|
    ensures var r := AnalyzeProject(current, weeksCount, fetched, worklogsOf);
      var weeks := CalculateWorkingWeeks(current, weeksCount);
      r.Ok? ==>
        var w := PrepareStatsForWebapp(r.value, users);
        && w.noWorklogTasks == r.value.full.tasksWithoutWorklog
        && |w.weeks| == |weeks|
        && (forall i | 0 <= i < |weeks| :: w.weeks[i] == LabelOf(i, weeks[i]))
        && (forall i | 0 <= i < |weeks| :: w.tasksCount[i] == (LabelOf(i, weeks[i]), |fetched[i]|))
  {
    AnalyzedNoWorklogReport(current, weeksCount, fetched, worklogsOf);
    AnalyzeProjectWeeks(current, weeksCount, fetched, worklogsOf);
  }

  // -----------------------------------------------------------------------
  // The dict walk as written

  /** A value of the dict `analyze_project` returns: one week's statistics,
      or the collected data stored under `_full_data`. */
  datatype StatsEntry = WeekEntry(stat: WeeklyStat) | FullEntry(data: ProjectData)

  function WeekEntries(weekly: seq<WeeklyStat>): (es: seq<StatsEntry>)
    ensures |es| == |weekly|
    ensures forall i | 0 <= i < |weekly| :: es[i] == WeekEntry(weekly[i])
  {
    seq(|weekly|, i requires 0 <= i < |weekly| => WeekEntry(weekly[i]))
  }

  /** `weekly_stats.values()`: the weeks, then `_full_data`, which
      `analyze_project` inserts last. */
  function StatsValues(stats: Stats): seq<StatsEntry>
  {
    WeekEntries(stats.weekly) + [FullEntry(stats.full)]
  }

  /** `week_data['total_worked_hours']`: the collected data has no such key. */
  function TotalWorkedHoursOf(e: StatsEntry): (r: Result<map<string, real>>)
    ensures r.Ok? <==> e.WeekEntry?
  {
    match e
    case WeekEntry(s) => Ok(s.totalWorkedHours)
    case FullEntry(_) => Err(MissingField("total_worked_hours"))
  }

  /** The `all_users` loop as written: the union of every value's
      `total_worked_hours` keys, the first value without one raising. */
  function UsersAsWritten(vs: seq<StatsEntry>): Result<set<string>>
  {
    if |vs| == 0 then Ok({})
    else
      match TotalWorkedHoursOf(vs[0])
      case Err(e) => Err(e)
      case Ok(m) =>
        match UsersAsWritten(vs[1..])
        case Err(e) => Err(e)
        case Ok(rest) => Ok(m.Keys + rest)
  }

  /** The users of the week values. */
  function EntryUsers(vs: seq<StatsEntry>): set<string>
  {
    set i, u | 0 <= i < |vs| && vs[i].WeekEntry? && u in vs[i].stat.totalWorkedHours :: u
  }

  lemma EntryUsersCons(vs: seq<StatsEntry>)
    requires |vs| > 0 && vs[0].WeekEntry?
    ensures EntryUsers(vs) == vs[0].stat.totalWorkedHours.Keys + EntryUsers(vs[1..])
  {
    var rest := vs[1..];
    forall u | u in EntryUsers(vs) ensures u in vs[0].stat.totalWorkedHours.Keys + EntryUsers(rest) {
      var i :| 0 <= i < |vs| && vs[i].WeekEntry? && u in vs[i].stat.totalWorkedHours;
      if i > 0 {
        assert rest[i - 1] == vs[i];
      }
    }
    forall u | u in vs[0].stat.totalWorkedHours.Keys + EntryUsers(rest) ensures u in EntryUsers(vs) {
      if u !in vs[0].stat.totalWorkedHours {
        var i :| 0 <= i < |rest| && rest[i].WeekEntry? && u in rest[i].stat.totalWorkedHours;
        assert vs[i + 1] == rest[i];
      }
    }
  }

  /** The walk raises as soon as a value is the collected data, and over
      week values only it is the union of their users. */
  lemma {:induction false} UsersAsWrittenSpec(vs: seq<StatsEntry>)
    ensures (exists i | 0 <= i < |vs| :: vs[i].FullEntry?) ==>
      UsersAsWritten(vs) == Err(MissingField("total_worked_hours"))
    ensures (forall i | 0 <= i < |vs| :: vs[i].WeekEntry?) ==> UsersAsWritten(vs) == Ok(EntryUsers(vs))
    decreases |vs|
  {
    if |vs| > 0 {
      var rest := vs[1..];
      UsersAsWrittenSpec(rest);
      if vs[0].WeekEntry? && exists i | 0 <= i < |vs| :: vs[i].FullEntry? {
        var i :| 0 <= i < |vs| && vs[i].FullEntry?;
        assert rest[i - 1] == vs[i];
      }
      if forall i | 0 <= i < |vs| :: vs[i].WeekEntry? {
        assert forall i | 0 <= i < |rest| :: rest[i].WeekEntry? by {
          forall i | 0 <= i < |rest| ensures rest[i].WeekEntry? {
            assert rest[i] == vs[i + 1];
          }
        }
        EntryUsersCons(vs);
        assert TotalWorkedHoursOf(vs[0]) == Ok(vs[0].stat.totalWorkedHours);
        assert UsersAsWritten(vs) == Ok(vs[0].stat.totalWorkedHours.Keys + EntryUsers(rest));
      }
    } else {
      assert EntryUsers(vs) == {};
    }
  }

  /** `prepare_stats_for_webapp` as written: the user walk over every value
      of the dict, then the table, lists and counts. */
  function PrepareStatsAsWritten(stats: Stats, users: seq<string>): Result<WebStats>
  {
    match UsersAsWritten(StatsValues(stats))
    case Err(e) => Err(e)
    case Ok(_) => Ok(PrepareStatsForWebapp(stats, users))
  }

  /** As written, the function raises `KeyError('total_worked_hours')` on
      every result of `analyze_project`, whatever the weeks hold. */
  lemma PrepareStatsAsWrittenFails(stats: Stats, users: seq<string>)
    ensures PrepareStatsAsWritten(stats, users) == Err(MissingField("total_worked_hours"))
  {
    var vs := StatsValues(stats);
    assert vs[|stats.weekly|].FullEntry?;
    UsersAsWrittenSpec(vs);
  }

  /** Skipping `_full_data`, the walk yields exactly the users the corrected
      table has lines for. */
  lemma WeeksOnlyUsers(weekly: seq<WeeklyStat>)
    ensures UsersAsWritten(WeekEntries(weekly)) == Ok(AllUsers(weekly, Combined))
  {
    var vs := WeekEntries(weekly);
    UsersAsWrittenSpec(vs);
    forall u | u in AllUsers(weekly, Combined) ensures u in EntryUsers(vs) {
      var i :| 0 <= i < |weekly| && u in Combined(weekly[i]);
      assert vs[i].stat == weekly[i];
    }
    forall u | u in EntryUsers(vs) ensures u in AllUsers(weekly, Combined) {
      var i :| 0 <= i < |vs| && vs[i].WeekEntry? && u in vs[i].stat.totalWorkedHours;
      assert u in Combined(weekly[i]);
    }
    assert EntryUsers(vs) == AllUsers(weekly, Combined);
  }
}
