/** The records the reporting engine passes around: extracted issues and
    worklogs, the collected project data, and the per-week statistics. */
module Records {
  import opened Base
  import opened Windows

  /** What `_extract_issue_data` keeps of an issue. */
  datatype IssueData = IssueData(
    key: string,
    summary: string,
    status: string,
    created: string,
    updated: string,
    assignee: string,
    reporter: string,
    estimateSeconds: int,
    estimateHours: real,
    priority: string,
    issueType: string,
    components: seq<string>,
    labels: seq<string>)

  /** What `_extract_worklog_data` keeps of a worklog; `date` is the day
      number of the first ten characters of `started`. */
  datatype Worklog = Worklog(
    id: string,
    issueKey: string,
    author: string,
    authorName: Option<string>,
    date: int,
    created: string,
    updated: string,
    seconds: int,
    hours: real,
    comment: Option<string>)

  /** An entry of `tasks_without_worklog`, tagged with the week it was first
      returned in. */
  datatype NoLogTask = NoLogTask(
    week: WeekLabel,
    key: string,
    summary: string,
    assignee: string,
    status: string,
    estimatedHours: real)

  /** An entry of `weeks_info`. */
  datatype WeekInfo = WeekInfo(name: WeekLabel, window: Window, issuesCount: nat)

  /** One `issue key -> [worklog, ...]` entry of an insertion-ordered dict. */
  datatype IssueLogs = IssueLogs(key: string, logs: seq<Worklog>)

  /** The result of `collect_project_data`. */
  datatype ProjectData = ProjectData(
    weeksInfo: seq<WeekInfo>,
    allIssues: map<string, IssueData>,
    allWorklogs: seq<IssueLogs>,
    usersHours: map<string, real>,
    tasksWithoutWorklog: seq<NoLogTask>)

  /** One week of `_create_weekly_stats`. */
  datatype WeeklyStat = WeeklyStat(
    name: WeekLabel,
    workedHours: map<string, real>,
    estimatedAsWorkedHours: map<string, real>,
    totalWorkedHours: map<string, real>,
    tasksWithoutWorklog: seq<NoLogTask>,
    totalIssues: nat,
    worklogs: seq<IssueLogs>,
    window: Window)

  /** An analysis result: the weeks in order, plus the raw collected data that
      the original threads through the same dict under `_full_data`. */
  datatype Stats = Stats(weekly: seq<WeeklyStat>, full: ProjectData)

  function IssueLogsKey(e: IssueLogs): string { e.key }

  function TaskKey(t: NoLogTask): string { t.key }

  /** Worklogs dated inside the window, both ends inclusive, in order. */
  function InWindow(logs: seq<Worklog>, w: Window): (r: seq<Worklog>)
    ensures |r| <= |logs|
    ensures forall x | x in r :: x in logs && w.ContainsDay(x.date)
    ensures forall x | x in logs && w.ContainsDay(x.date) :: x in r
  {
    if |logs| == 0 then []
    else (if w.ContainsDay(logs[0].date) then [logs[0]] else []) + InWindow(logs[1..], w)
  }

  /** The window filter keeps each worklog dated in the window exactly as
      many times as it occurs, and no other. */
  lemma {:induction false} InWindowCounts(logs: seq<Worklog>, w: Window)
    ensures forall x :: multiset(InWindow(logs, w))[x] == if w.ContainsDay(x.date) then multiset(logs)[x] else 0
    decreases |logs|
  {
    if |logs| > 0 {
      InWindowCounts(logs[1..], w);
      assert logs == [logs[0]] + logs[1..];
    }
  }

  /** The (author, hours) pair each worklog contributes to a tally. */
  function HourEntries(logs: seq<Worklog>): (es: seq<(string, real)>)
    ensures |es| == |logs|
    ensures forall i | 0 <= i < |logs| :: es[i] == (logs[i].author, logs[i].hours)
  {
    if |logs| == 0 then [] else [(logs[0].author, logs[0].hours)] + HourEntries(logs[1..])
  }

  lemma HourEntriesAppend(a: seq<Worklog>, b: seq<Worklog>)
    ensures HourEntries(a + b) == HourEntries(a) + HourEntries(b)
  {
  }

  lemma {:induction false} InWindowAppend(a: seq<Worklog>, b: seq<Worklog>, w: Window)
    ensures InWindow(a + b, w) == InWindow(a, w) + InWindow(b, w)
    decreases |a|
  {
    if |a| == 0 {
      assert a + b == b;
    } else {
      assert (a + b)[1..] == a[1..] + b;
      InWindowAppend(a[1..], b, w);
    }
  }
}
