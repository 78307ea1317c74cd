/** `_create_weekly_stats` and `analyze_project`: per window, the worklogs
    dated inside it grouped by issue, the hours logged per author, the
    no-worklog tasks tagged with it, their estimates per assignee, and the
    merge of the two into `total_worked_hours`. */
module Analytics {
  import opened Base
  import opened Windows
  import opened Records
  import opened Dedup
  import opened Tally
  import opened Collect

  // -----------------------------------------------------------------------
  // Worklogs of one window

  /** Every worklog of every issue, issue by issue. */
  function AllLogs(all: seq<IssueLogs>): seq<Worklog>
  {
    if |all| == 0 then [] else all[0].logs + AllLogs(all[1..])
  }

  /** The window's `worklogs` dict: each issue with at least one worklog in
      the window, mapped to those worklogs, in `all_worklogs` order. */
  function WeekWorklogs(all: seq<IssueLogs>, w: Window): (r: seq<IssueLogs>)
    ensures forall e | e in r :: |e.logs| > 0
  {
    if |all| == 0 then []
    else
      var inside := InWindow(all[0].logs, w);
      (if |inside| > 0 then [IssueLogs(all[0].key, inside)] else []) + WeekWorklogs(all[1..], w)
  }

  /** The (author, hours) entries `week_users_hours` accumulates: the
      window's worklogs, issue by issue. */
  function WorkedEntries(all: seq<IssueLogs>, w: Window): seq<(string, real)>
  {
    if |all| == 0 then [] else HourEntries(InWindow(all[0].logs, w)) + WorkedEntries(all[1..], w)
  }

  lemma {:induction false} AllLogsAppend(a: seq<IssueLogs>, b: seq<IssueLogs>)
    ensures AllLogs(a + b) == AllLogs(a) + AllLogs(b)
    decreases |a|
  {
    if |a| == 0 {
      assert a + b == b;
    } else {
      assert (a + b)[1..] == a[1..] + b;
      AllLogsAppend(a[1..], b);
    }
  }

  /** Grouping loses and invents nothing: the grouped worklogs, read issue by
      issue, are exactly the worklogs dated inside the window, in order. */
  lemma {:induction false} WeekWorklogsFlatten(all: seq<IssueLogs>, w: Window)
    ensures AllLogs(WeekWorklogs(all, w)) == InWindow(AllLogs(all), w)
    decreases |all|
  {
    if |all| > 0 {
      var inside := InWindow(all[0].logs, w);
      var head := if |inside| > 0 then [IssueLogs(all[0].key, inside)] else [];
      WeekWorklogsFlatten(all[1..], w);
      AllLogsAppend(head, WeekWorklogs(all[1..], w));
      InWindowAppend(all[0].logs, AllLogs(all[1..]), w);
      if |inside| > 0 {
        assert AllLogs(head) == inside + AllLogs(head[1..]);
      }
    }
  }

  /** An issue is listed for the window exactly when one of its worklogs is
      dated inside it. */
  lemma {:induction false} WeekWorklogsKeys(all: seq<IssueLogs>, w: Window)
    ensures forall e | e in WeekWorklogs(all, w) ::
      exists i | 0 <= i < |all| :: e.key == all[i].key && e.logs == InWindow(all[i].logs, w)
    ensures forall i | 0 <= i < |all| && |InWindow(all[i].logs, w)| > 0 ::
      IssueLogs(all[i].key, InWindow(all[i].logs, w)) in WeekWorklogs(all, w)
    decreases |all|
  {
    if |all| > 0 {
      WeekWorklogsKeys(all[1..], w);
      forall e | e in WeekWorklogs(all, w)
        ensures exists i | 0 <= i < |all| :: e.key == all[i].key && e.logs == InWindow(all[i].logs, w)
      {
        if e !in WeekWorklogs(all[1..], w) {
          assert e.key == all[0].key && e.logs == InWindow(all[0].logs, w);
        } else {
          var i :| 0 <= i < |all[1..]| && e.key == all[1..][i].key && e.logs == InWindow(all[1..][i].logs, w);
          assert all[1..][i] == all[i + 1];
        }
      }
      forall i | 0 <= i < |all| && |InWindow(all[i].logs, w)| > 0
        ensures IssueLogs(all[i].key, InWindow(all[i].logs, w)) in WeekWorklogs(all, w)
      {
        if i > 0 { assert all[i] == all[1..][i - 1]; }
      }
    }
  }

  /** The issue-by-issue accumulation sees exactly the window's worklogs. */
  lemma {:induction false} WorkedEntriesFlat(all: seq<IssueLogs>, w: Window)
    ensures WorkedEntries(all, w) == HourEntries(InWindow(AllLogs(all), w))
    decreases |all|
  {
    if |all| > 0 {
      WorkedEntriesFlat(all[1..], w);
      InWindowAppend(all[0].logs, AllLogs(all[1..]), w);
      HourEntriesAppend(InWindow(all[0].logs, w), InWindow(AllLogs(all[1..]), w));
    }
  }

  // -----------------------------------------------------------------------
  // Tasks and estimates of one window

  /** The no-worklog tasks tagged with this window, in order. */
  function TasksOfWeek(tasks: seq<NoLogTask>, name: WeekLabel): (r: seq<NoLogTask>)
    ensures |r| <= |tasks|
    ensures forall t | t in r :: t in tasks && t.week == name
    ensures forall t | t in tasks && t.week == name :: t in r
  {
    if |tasks| == 0 then []
    else (if tasks[0].week == name then [tasks[0]] else []) + TasksOfWeek(tasks[1..], name)
  }

  /** The estimates of the tasks assigned to `u`, added up; a zero estimate
      adds nothing. */
  function EstimateSum(tasks: seq<NoLogTask>, u: string): real
  {
    if |tasks| == 0 then 0.0
    else (if tasks[0].assignee == u then tasks[0].estimatedHours else 0.0) + EstimateSum(tasks[1..], u)
  }

  /** The (assignee, hours) entries `estimated_hours` accumulates: tasks
      whose estimate is non-zero (a zero estimate is falsy and skipped). */
  function EstimateEntries(tasks: seq<NoLogTask>): (es: seq<(string, real)>)
    ensures forall e | e in es :: e.1 != 0.0 && exists t | t in tasks :: t.assignee == e.0 && t.estimatedHours == e.1
    ensures forall t | t in tasks && t.estimatedHours != 0.0 :: (t.assignee, t.estimatedHours) in es
    ensures forall u :: SumFor(es, u) == EstimateSum(tasks, u)
  {
    if |tasks| == 0 then []
    else
      var rest := EstimateEntries(tasks[1..]);
      assert forall e | e in rest :: exists t | t in tasks :: t.assignee == e.0 && t.estimatedHours == e.1 by {
        forall e | e in rest ensures exists t | t in tasks :: t.assignee == e.0 && t.estimatedHours == e.1 {
          var t :| t in tasks[1..] && t.assignee == e.0 && t.estimatedHours == e.1;
          assert t in tasks;
        }
      }
      if tasks[0].estimatedHours != 0.0 then
        var e := (tasks[0].assignee, tasks[0].estimatedHours);
        assert ([e] + rest)[1..] == rest;
        [e] + rest
      else rest
  }

  // -----------------------------------------------------------------------
  // Merging estimates into worked hours

  function Fst(e: (string, real)): string { e.0 }

  lemma KeysOfFst(es: seq<(string, real)>)
    ensures KeysOf(es, Fst) == EntryKeys(es)
  {
    forall k | k in EntryKeys(es) ensures k in KeysOf(es, Fst) {
      var i :| 0 <= i < |es| && es[i].0 == k;
      assert Fst(es[i]) == k;
    }
  }

  /** The order in which `estimated_hours` first received each key. */
  function KeyOrder(es: seq<(string, real)>): (users: seq<string>)
    ensures |users| == |DedupBy(es, Fst)|
    ensures forall i | 0 <= i < |users| :: users[i] == DedupBy(es, Fst)[i].0
  {
    var firsts := DedupBy(es, Fst);
    seq(|firsts|, i requires 0 <= i < |firsts| => firsts[i].0)
  }

  lemma KeyOrderFacts(es: seq<(string, real)>)
    ensures forall i, j | 0 <= i < j < |KeyOrder(es)| :: KeyOrder(es)[i] != KeyOrder(es)[j]
    ensures forall u :: u in KeyOrder(es) <==> u in EntryKeys(es)
  {
    var firsts := DedupBy(es, Fst);
    var users := KeyOrder(es);
    DedupByKeys(es, Fst);
    KeysOfFst(es);
    KeysOfFst(firsts);
    forall i, j | 0 <= i < j < |users| ensures users[i] != users[j] {
      assert Fst(firsts[i]) != Fst(firsts[j]);
    }
    forall u ensures u in users <==> u in EntryKeys(es) {
      if u in users {
        var i :| 0 <= i < |users| && users[i] == u;
        assert firsts[i].0 == u;
        assert u in EntryKeys(firsts);
      }
      if u in EntryKeys(es) {
        assert u in EntryKeys(firsts);
        var i :| 0 <= i < |firsts| && firsts[i].0 == u;
        assert users[i] == u;
      }
    }
  }

  /** `total[user] = total.get(user, 0) + hours` for each user of `est`, in
      the order given. */
  function MergeFrom(total: map<string, real>, users: seq<string>, est: map<string, real>): map<string, real>
    requires forall u | u in users :: u in est
    decreases |users|
  {
    if |users| == 0 then total
    else MergeFrom(total[users[0] := Get(total, users[0]) + est[users[0]]], users[1..], est)
  }

  /** Adding each estimate key once leaves every user with its starting
      hours plus its estimate. */
  lemma MergeFromSpec(total: map<string, real>, users: seq<string>, est: map<string, real>)
    requires forall u | u in users :: u in est
    requires forall i, j | 0 <= i < j < |users| :: users[i] != users[j]
    ensures MergeFrom(total, users, est).Keys == total.Keys + set u | u in users
    ensures forall u | u in MergeFrom(total, users, est) ::
      MergeFrom(total, users, est)[u] == Get(total, u) + (if u in users then est[u] else 0.0)
  {
    MergeFromKeys(total, users, est);
    MergeFromValues(total, users, est);
  }

  /** The merged map gains exactly the users' keys. */
  lemma {:induction false} MergeFromKeys(total: map<string, real>, users: seq<string>, est: map<string, real>)
    requires forall u | u in users :: u in est
    ensures MergeFrom(total, users, est).Keys == total.Keys + set u | u in users
    decreases |users|
  {
    if |users| > 0 {
      var u0 := users[0];
      var rest := users[1..];
      MergeFromKeys(total[u0 := Get(total, u0) + est[u0]], rest, est);
      assert (set u | u in users) == {u0} + set u | u in rest;
    }
  }

  /** Each user listed once gets its estimate added once. */
  lemma {:induction false} MergeFromValues(total: map<string, real>, users: seq<string>, est: map<string, real>)
    requires forall u | u in users :: u in est
    requires forall i, j | 0 <= i < j < |users| :: users[i] != users[j]
    ensures forall u | u in MergeFrom(total, users, est) ::
      MergeFrom(total, users, est)[u] == Get(total, u) + (if u in users then est[u] else 0.0)
    decreases |users|
  {
    if |users| > 0 {
      var u0 := users[0];
      var t1 := total[u0 := Get(total, u0) + est[u0]];
      var rest := users[1..];
      DistinctTail(users);
      MergeFromValues(t1, rest, est);
      forall u ensures Get(t1, u) + (if u in rest then est[u] else 0.0)
                    == Get(total, u) + (if u in users then est[u] else 0.0) {
        assert u in users <==> u == u0 || u in rest;
      }
    }
  }

  /** The tail of a list without repeats has none, and lacks the head. */
  lemma DistinctTail(users: seq<string>)
    requires |users| > 0
    requires forall i, j | 0 <= i < j < |users| :: users[i] != users[j]
    ensures forall i, j | 0 <= i < j < |users[1..]| :: users[1..][i] != users[1..][j]
    ensures users[0] !in users[1..]
  {
    var rest := users[1..];
    forall i, j | 0 <= i < j < |rest| ensures rest[i] != rest[j] {
      assert rest[i] == users[i + 1] && rest[j] == users[j + 1];
    }
    forall j | 0 <= j < |rest| ensures rest[j] != users[0] {
      assert rest[j] == users[j + 1];
    }
  }

  /** `total_worked_hours`: a copy of the worked hours with every estimate
      added on top, key by key in `estimated_hours` order. */
  function Merge(worked: map<string, real>, estEntries: seq<(string, real)>): map<string, real>
  {
    var est := Totals(estEntries);
    KeyOrderFacts(estEntries);
    MergeFrom(worked, KeyOrder(estEntries), est)
  }

  /** The merged map has the union of the keys, and every user's total is
      their logged hours plus their estimate, each defaulting to 0. */
  lemma MergeSpec(worked: map<string, real>, estEntries: seq<(string, real)>)
    ensures Merge(worked, estEntries).Keys == worked.Keys + Totals(estEntries).Keys
    ensures forall u | u in Merge(worked, estEntries) ::
      Merge(worked, estEntries)[u] == Get(worked, u) + Get(Totals(estEntries), u)
  {
    var est := Totals(estEntries);
    KeyOrderFacts(estEntries);
    MergeFromSpec(worked, KeyOrder(estEntries), est);
    assert (set u | u in KeyOrder(estEntries)) == est.Keys;
  }

  // -----------------------------------------------------------------------
  // Weekly statistics

  /** One entry of `_create_weekly_stats`. */
  function WeekStat(data: ProjectData, info: WeekInfo): WeeklyStat
  {
    var worked := Totals(WorkedEntries(data.allWorklogs, info.window));
    var tasks := TasksOfWeek(data.tasksWithoutWorklog, info.name);
    var estEntries := EstimateEntries(tasks);
    WeeklyStat(info.name, worked, Totals(estEntries), Merge(worked, estEntries), tasks,
               info.issuesCount, WeekWorklogs(data.allWorklogs, info.window), info.window)
  }

  /** `_create_weekly_stats`: one statistic per entry of `weeks_info`, in
      order, carrying that week's label, window and `issues_count`. */
  function CreateWeeklyStats(data: ProjectData): (stats: seq<WeeklyStat>)
    ensures |stats| == |data.weeksInfo|
    ensures forall i | 0 <= i < |stats| ::
      && stats[i].name == data.weeksInfo[i].name
      && stats[i].window == data.weeksInfo[i].window
      && stats[i].totalIssues == data.weeksInfo[i].issuesCount
  {
    seq(|data.weeksInfo|, i requires 0 <= i < |data.weeksInfo| => WeekStat(data, data.weeksInfo[i]))
  }

  /** A week's `worked_hours` has a key for exactly the authors of the
      worklogs dated inside the window, each with the sum of those
      worklogs' hours, and its `worklogs` hold exactly those worklogs,
      grouped by issue. */
  lemma WeekStatWorked(data: ProjectData, info: WeekInfo)
    ensures var s := WeekStat(data, info);
      var logs := InWindow(AllLogs(data.allWorklogs), info.window);
      s.workedHours == Totals(HourEntries(logs)) && AllLogs(s.worklogs) == logs
  {
    WorkedEntriesFlat(data.allWorklogs, info.window);
    WeekWorklogsFlatten(data.allWorklogs, info.window);
  }

  /** An assignee has an estimate entry exactly when one of the tasks is
      assigned to them with a non-zero estimate. */
  lemma EstimateKeys(tasks: seq<NoLogTask>)
    ensures forall u :: u in EntryKeys(EstimateEntries(tasks)) <==>
      exists t | t in tasks :: t.assignee == u && t.estimatedHours != 0.0
  {
    var es := EstimateEntries(tasks);
    forall u ensures u in EntryKeys(es) <==> exists t | t in tasks :: t.assignee == u && t.estimatedHours != 0.0
    {
      if u in EntryKeys(es) {
        var i :| 0 <= i < |es| && es[i].0 == u;
        assert es[i] in es;
      }
      if exists t | t in tasks :: t.assignee == u && t.estimatedHours != 0.0 {
        var t :| t in tasks && t.assignee == u && t.estimatedHours != 0.0;
        var e := (t.assignee, t.estimatedHours);
        assert e in es;
        var i :| 0 <= i < |es| && es[i] == e;
      }
    }
  }

  /** A week's `estimated_as_worked_hours` has a key for exactly the
      assignees of the week's no-worklog tasks with a non-zero estimate,
      each with the sum of those estimates. */
  lemma WeekStatEstimates(data: ProjectData, info: WeekInfo)
    ensures var s := WeekStat(data, info);
      && s.tasksWithoutWorklog == TasksOfWeek(data.tasksWithoutWorklog, info.name)
      && (forall u :: u in s.estimatedAsWorkedHours <==>
            exists t | t in s.tasksWithoutWorklog :: t.assignee == u && t.estimatedHours != 0.0)
      && (forall u | u in s.estimatedAsWorkedHours ::
            s.estimatedAsWorkedHours[u] == EstimateSum(s.tasksWithoutWorklog, u))
  {
    EstimateKeys(TasksOfWeek(data.tasksWithoutWorklog, info.name));
  }

  /** A week's `total_worked_hours` has the union of the worked and the
      estimated keys, each user with worked plus estimated hours; the worked
      map itself is not changed by the merge. */
  lemma WeekStatTotals(data: ProjectData, info: WeekInfo)
    ensures var s := WeekStat(data, info);
      && s.workedHours == Totals(WorkedEntries(data.allWorklogs, info.window))
      && s.totalWorkedHours.Keys == s.workedHours.Keys + s.estimatedAsWorkedHours.Keys
      && (forall u | u in s.totalWorkedHours ::
            s.totalWorkedHours[u] == Get(s.workedHours, u) + Get(s.estimatedAsWorkedHours, u))
  {
    var s := WeekStat(data, info);
    MergeSpec(s.workedHours, EstimateEntries(s.tasksWithoutWorklog));
  }

  /** `analyze_project`: collect, then build the weekly statistics; the
      collected data travels alongside instead of under a reserved key. */
  function AnalyzeProject(current: Instant, weeksCount: int, fetched: seq<seq<RawIssue>>,
                          worklogsOf: map<string, seq<RawWorklog>>): (r: Result<Stats>)
    requires |fetched| == |CalculateWorkingWeeks(current, weeksCount)|
    ensures r.Ok? <==> CollectProjectData(current, weeksCount, fetched, worklogsOf).Ok?
    ensures r.Ok? ==> r.value.full == CollectProjectData(current, weeksCount, fetched, worklogsOf).value
  {
    match CollectProjectData(current, weeksCount, fetched, worklogsOf)
    case Err(e) => Err(e)
    case Ok(data) => Ok(Stats(CreateWeeklyStats(data), data))
  }

  /** The weeks of an analysis are the windows of `calculate_working_weeks`,
      most recent first, each with the number of issues fetched for it. */
  lemma AnalyzeProjectWeeks(current: Instant, weeksCount: int, fetched: seq<seq<RawIssue>>,
      worklogsOf: map<string, seq<RawWorklog>>)
    requires |fetched| == |CalculateWorkingWeeks(current, weeksCount)|
    ensures var r := AnalyzeProject(current, weeksCount, fetched, worklogsOf);
      var weeks := CalculateWorkingWeeks(current, weeksCount);
      r.Ok? ==>
        && |r.value.weekly| == |weeks|
        && forall i | 0 <= i < |weeks| ::
             && r.value.weekly[i].window == weeks[i]
             && r.value.weekly[i].name == LabelOf(i, weeks[i])
             && r.value.weekly[i].totalIssues == |fetched[i]|
  {
  }

  /** Every collected no-worklog task lands in the list of exactly one week:
      the first (most recent) window that returned it. */
  lemma AnalyzeTaskInOneWeek(current: Instant, weeksCount: int, fetched: seq<seq<RawIssue>>,
      worklogsOf: map<string, seq<RawWorklog>>, t: NoLogTask)
    requires |fetched| == |CalculateWorkingWeeks(current, weeksCount)|
    ensures var r := AnalyzeProject(current, weeksCount, fetched, worklogsOf);
      r.Ok? && t in r.value.full.tasksWithoutWorklog ==>
      var weekly := r.value.weekly;
      exists w | 0 <= w < |weekly| ::
        && FirstReturnedIn(fetched, t.key, w)
        && t in weekly[w].tasksWithoutWorklog
        && forall v | 0 <= v < |weekly| && v != w :: t !in weekly[v].tasksWithoutWorklog
  {
    var r := AnalyzeProject(current, weeksCount, fetched, worklogsOf);
    if r.Ok? && t in r.value.full.tasksWithoutWorklog {
      var weeks := CalculateWorkingWeeks(current, weeksCount);
      var data := CollectProjectData(current, weeksCount, fetched, worklogsOf).value;
      var weekly := r.value.weekly;
      assert weekly == CreateWeeklyStats(data);
      CollectNoLogTasksTagged(current, weeksCount, fetched, worklogsOf);
      AnalyzeProjectWeeks(current, weeksCount, fetched, worklogsOf);
      var w :| 0 <= w < |weeks| && FirstReturnedIn(fetched, t.key, w) && t.week == LabelOf(w, weeks[w]);
      StatTasks(data, w);
      forall v | 0 <= v < |weekly| && v != w ensures t !in weekly[v].tasksWithoutWorklog {
        StatTasks(data, v);
        assert weekly[v].name.number != t.week.number;
      }
    }
  }

  /** A week's no-worklog tasks are the collected ones tagged with its label. */
  lemma StatTasks(data: ProjectData, i: nat)
    requires i < |CreateWeeklyStats(data)|
    ensures forall t :: t in CreateWeeklyStats(data)[i].tasksWithoutWorklog <==>
      t in data.tasksWithoutWorklog && t.week == CreateWeeklyStats(data)[i].name
  {
    assert CreateWeeklyStats(data)[i] == WeekStat(data, data.weeksInfo[i]);
  }

  /** A worklog counts towards at most one week, since the windows do not
      overlap. */
  lemma AnalyzeWorklogInOneWeek(current: Instant, weeksCount: int, fetched: seq<seq<RawIssue>>,
      worklogsOf: map<string, seq<RawWorklog>>, x: Worklog)
    requires |fetched| == |CalculateWorkingWeeks(current, weeksCount)|
    requires AnalyzeProject(current, weeksCount, fetched, worklogsOf).Ok?
    ensures var weekly := AnalyzeProject(current, weeksCount, fetched, worklogsOf).value.weekly;
      forall i, j | 0 <= i < |weekly| && 0 <= j < |weekly| ::
        x in AllLogs(weekly[i].worklogs) && x in AllLogs(weekly[j].worklogs) ==> i == j
  {
    var data := CollectProjectData(current, weeksCount, fetched, worklogsOf).value;
    var weekly := AnalyzeProject(current, weeksCount, fetched, worklogsOf).value.weekly;
    var weeks := CalculateWorkingWeeks(current, weeksCount);
    assert weekly == CreateWeeklyStats(data);
    AnalyzeProjectWeeks(current, weeksCount, fetched, worklogsOf);
    forall i | 0 <= i < |weekly| && x in AllLogs(weekly[i].worklogs) ensures weeks[i].ContainsDay(x.date) {
      StatLogsInWindow(data, i);
    }
    if weeksCount > 0 {
      WindowsTileDays(current, weeksCount, x.date);
    }
  }

  /** A week's `worklogs` only hold worklogs dated inside its window. */
  lemma StatLogsInWindow(data: ProjectData, i: nat)
    requires i < |CreateWeeklyStats(data)|
    ensures forall x | x in AllLogs(CreateWeeklyStats(data)[i].worklogs) ::
      CreateWeeklyStats(data)[i].window.ContainsDay(x.date)
  {
    var w := data.weeksInfo[i].window;
    assert CreateWeeklyStats(data)[i].worklogs == WeekWorklogs(data.allWorklogs, w);
    WeekWorklogsFlatten(data.allWorklogs, w);
  }
}
