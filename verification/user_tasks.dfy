/** `get_user_tasks_details`: one user's tasks over the analysed period,
    the ones with their worklogs in the period first gathered per issue, then
    the no-worklog tasks assigned to them, all sorted by hours, largest
    first. */
module UserTasks {
  import opened Base
  import opened Windows
  import opened Records
  import opened Tally
  import opened Sorting
  import opened Dedup
  import opened Collect
  import opened Analytics

  /** The status shown for a task that only has an estimate. */
  const NoWorklogStatus: string := "Без журнала работ"

  /** An entry of the user's task list: an issue with the user's worklogs
      in the period, or a no-worklog task counted by its estimate. */
  datatype UserTask =
    | Logged(key: string, summary: string, status: string, hours: real, worklogs: seq<Worklog>)
    | Estimated(key: string, summary: string, hours: real)
  {
    function Status(): string
    {
      if Logged? then status else NoWorklogStatus
    }
  }

  function TaskHours(t: UserTask): real { t.hours }

  function UserTaskKey(t: UserTask): string { t.key }

  /** The analysed period: the window of every week. */
  function Periods(weeksInfo: seq<WeekInfo>): (ps: seq<Window>)
    ensures |ps| == |weeksInfo|
    ensures forall i | 0 <= i < |weeksInfo| :: ps[i] == weeksInfo[i].window
  {
    seq(|weeksInfo|, i requires 0 <= i < |weeksInfo| => weeksInfo[i].window)
  }

  /** Whether some period contains the day, both ends inclusive. */
  function InSomePeriod(periods: seq<Window>, day: int): (b: bool)
    ensures b <==> exists i | 0 <= i < |periods| :: periods[i].ContainsDay(day)
  {
    if |periods| == 0 then false
    else
      assert forall i | 1 <= i < |periods| :: periods[i] == periods[1..][i - 1];
      periods[0].ContainsDay(day) || InSomePeriod(periods[1..], day)
  }

  /** The user's worklogs dated inside the period, in order. */
  function UserLogs(logs: seq<Worklog>, user: string, periods: seq<Window>): (r: seq<Worklog>)
    ensures forall x :: x in r <==> x in logs && x.author == user && InSomePeriod(periods, x.date)
  {
    if |logs| == 0 then []
    else
      (if logs[0].author == user && InSomePeriod(periods, logs[0].date) then [logs[0]] else [])
      + UserLogs(logs[1..], user, periods)
  }

  /** The user's period filter keeps each of the user's worklogs dated in
      the period exactly as many times as it occurs, and no other. */
  lemma {:induction false} UserLogsCounts(logs: seq<Worklog>, user: string, periods: seq<Window>)
    ensures forall x :: multiset(UserLogs(logs, user, periods))[x]
                     == if x.author == user && InSomePeriod(periods, x.date) then multiset(logs)[x] else 0
    decreases |logs|
  {
    if |logs| > 0 {
      UserLogsCounts(logs[1..], user, periods);
      assert logs == [logs[0]] + logs[1..];
    }
  }

  /** The logged part: per issue with worklogs, in `all_worklogs` order,
      an entry when the user has a worklog in the period and the issue is
      known, with the hours of those worklogs. */
  function LoggedTasks(all: seq<IssueLogs>, issues: map<string, IssueData>, user: string,
                       periods: seq<Window>): seq<UserTask>
  {
    if |all| == 0 then []
    else LoggedEntry(all[0], issues, user, periods) + LoggedTasks(all[1..], issues, user, periods)
  }

  /** The entry one issue contributes: none, or the user's worklogs on it
      in the period with their hours. */
  function LoggedEntry(e: IssueLogs, issues: map<string, IssueData>, user: string,
                       periods: seq<Window>): (r: seq<UserTask>)
    ensures |r| <= 1
  {
    var mine := UserLogs(e.logs, user, periods);
    if |mine| > 0 && e.key in issues
    then [Logged(e.key, issues[e.key].summary, issues[e.key].status, Total(HourEntries(mine)), mine)]
    else []
  }

  /** Whether some listed entry has the key. */
  function HasKey(acc: seq<UserTask>, key: string): (b: bool)
    ensures b <==> exists i | 0 <= i < |acc| :: acc[i].key == key
  {
    if |acc| == 0 then false
    else
      assert forall i | 1 <= i < |acc| :: acc[i] == acc[1..][i - 1];
      acc[0].key == key || HasKey(acc[1..], key)
  }

  /** The no-worklog part: each task assigned to the user whose key is not
      yet in the list is appended, in order; the list grows as it goes, so a
      key is added once. */
  function AddNoLogTasks(acc: seq<UserTask>, tasks: seq<NoLogTask>, user: string): seq<UserTask>
    decreases |tasks|
  {
    if |tasks| == 0 then acc
    else
      var t := tasks[0];
      var next := if t.assignee == user && !HasKey(acc, t.key)
                  then acc + [Estimated(t.key, t.summary, t.estimatedHours)]
                  else acc;
      AddNoLogTasks(next, tasks[1..], user)
  }

  /** The list before sorting. */
  function Unsorted(data: ProjectData, user: string): seq<UserTask>
  {
    var logged := LoggedTasks(data.allWorklogs, data.allIssues, user, Periods(data.weeksInfo));
    AddNoLogTasks(logged, data.tasksWithoutWorklog, user)
  }

  /** `get_user_tasks_details` on an analysis: the list sorted by hours,
      largest first, entries with equal hours in list order. */
  function UserTasksDetails(stats: Stats, user: string): (r: seq<UserTask>)
    ensures |r| == |Unsorted(stats.full, user)|
  {
    SortDescCorrect(Unsorted(stats.full, user), TaskHours);
    SortDesc(Unsorted(stats.full, user), TaskHours)
  }

  // -----------------------------------------------------------------------
  // The logged part

  /** A logged entry exists for an issue exactly when the user has a
      worklog on it dated inside the period and the issue is known; it
      carries the issue's summary and status, exactly those worklogs, and
      their hours added up. */
  lemma {:induction false} LoggedTasksMembers(all: seq<IssueLogs>, issues: map<string, IssueData>,
      user: string, periods: seq<Window>)
    ensures forall t | t in LoggedTasks(all, issues, user, periods) ::
      && t.Logged?
      && t.key in issues
      && t.summary == issues[t.key].summary
      && t.status == issues[t.key].status
      && |t.worklogs| > 0
      && t.hours == Total(HourEntries(t.worklogs))
      && exists i | 0 <= i < |all| :: all[i].key == t.key && t.worklogs == UserLogs(all[i].logs, user, periods)
    ensures forall i | 0 <= i < |all| && all[i].key in issues && |UserLogs(all[i].logs, user, periods)| > 0 ::
      exists t | t in LoggedTasks(all, issues, user, periods) ::
        t.key == all[i].key && t.worklogs == UserLogs(all[i].logs, user, periods)
    decreases |all|
  {
    LoggedTasksSound(all, issues, user, periods);
    LoggedTasksComplete(all, issues, user, periods);
  }

  /** An entry built from the worklogs of `all[i]`. */
  ghost predicate LoggedFrom(t: UserTask, all: seq<IssueLogs>, issues: map<string, IssueData>, user: string,
                             periods: seq<Window>)
  {
    && t.Logged?
    && t.key in issues
    && t.summary == issues[t.key].summary
    && t.status == issues[t.key].status
    && |t.worklogs| > 0
    && t.hours == Total(HourEntries(t.worklogs))
    && exists i | 0 <= i < |all| :: all[i].key == t.key && t.worklogs == UserLogs(all[i].logs, user, periods)
  }

  lemma {:induction false} LoggedTasksSound(all: seq<IssueLogs>, issues: map<string, IssueData>,
      user: string, periods: seq<Window>)
    ensures forall t | t in LoggedTasks(all, issues, user, periods) :: LoggedFrom(t, all, issues, user, periods)
    decreases |all|
  {
    if |all| > 0 {
      var rest := all[1..];
      var h := LoggedEntry(all[0], issues, user, periods);
      var tail := LoggedTasks(rest, issues, user, periods);
      LoggedTasksSound(rest, issues, user, periods);
      forall t | t in h + tail ensures LoggedFrom(t, all, issues, user, periods) {
        if t in h {
          assert t == h[0];
          assert all[0].key == t.key && t.worklogs == UserLogs(all[0].logs, user, periods);
        } else {
          assert LoggedFrom(t, rest, issues, user, periods);
          var i :| 0 <= i < |rest| && rest[i].key == t.key && t.worklogs == UserLogs(rest[i].logs, user, periods);
          assert all[i + 1] == rest[i];
        }
      }
    }
  }

  lemma {:induction false} LoggedTasksComplete(all: seq<IssueLogs>, issues: map<string, IssueData>,
      user: string, periods: seq<Window>)
    ensures forall i | 0 <= i < |all| && all[i].key in issues && |UserLogs(all[i].logs, user, periods)| > 0 ::
      exists t | t in LoggedTasks(all, issues, user, periods) ::
        t.Logged? && t.key == all[i].key && t.worklogs == UserLogs(all[i].logs, user, periods)
    decreases |all|
  {
    if |all| > 0 {
      var rest := all[1..];
      var h := LoggedEntry(all[0], issues, user, periods);
      var tail := LoggedTasks(rest, issues, user, periods);
      LoggedTasksComplete(rest, issues, user, periods);
      assert LoggedTasks(all, issues, user, periods) == h + tail;
      forall i | 0 <= i < |all| && all[i].key in issues && |UserLogs(all[i].logs, user, periods)| > 0
        ensures exists t: UserTask | t in h + tail :: t.Logged? && t.key == all[i].key && t.worklogs == UserLogs(all[i].logs, user, periods)
      {
        if i == 0 {
          assert h[0] in h + tail;
        } else {
          assert all[i] == rest[i - 1];
          var t: UserTask :| t in tail && t.Logged? && t.key == rest[i - 1].key && t.worklogs == UserLogs(rest[i - 1].logs, user, periods);
          assert t in h + tail;
        }
      }
    }
  }

  /** Every logged entry is keyed by an issue of `all_worklogs`. */
  lemma {:induction false} LoggedTasksKeys(all: seq<IssueLogs>, issues: map<string, IssueData>,
      user: string, periods: seq<Window>)
    ensures forall t | t in LoggedTasks(all, issues, user, periods) :: exists i | 0 <= i < |all| :: all[i].key == t.key
    decreases |all|
  {
    if |all| > 0 {
      var rest := all[1..];
      LoggedTasksKeys(rest, issues, user, periods);
      forall t | t in LoggedTasks(all, issues, user, periods) ensures exists i | 0 <= i < |all| :: all[i].key == t.key {
        if t in LoggedTasks(rest, issues, user, periods) {
          var i :| 0 <= i < |rest| && rest[i].key == t.key;
          assert all[i + 1] == rest[i];
        }
      }
    }
  }

  /** With one `all_worklogs` entry per issue, the logged part has one
      entry per issue. */
  lemma {:induction false} LoggedTasksDistinct(all: seq<IssueLogs>, issues: map<string, IssueData>,
      user: string, periods: seq<Window>)
    requires forall i, j | 0 <= i < j < |all| :: all[i].key != all[j].key
    ensures DistinctKeys(LoggedTasks(all, issues, user, periods), UserTaskKey)
    decreases |all|
  {
    if |all| > 0 {
      var rest := all[1..];
      var h := LoggedEntry(all[0], issues, user, periods);
      var tail := LoggedTasks(rest, issues, user, periods);
      LoggedTasksDistinct(rest, issues, user, periods);
      LoggedTasksKeys(rest, issues, user, periods);
      forall t | t in tail ensures t.key != all[0].key {
        var m :| 0 <= m < |rest| && rest[m].key == t.key;
        assert rest[m] == all[m + 1];
      }
      DistinctPrepend(h, tail, all[0].key);
    }
  }

  /** At most one entry under a key the rest does not use keeps the keys distinct. */
  lemma DistinctPrepend(h: seq<UserTask>, tail: seq<UserTask>, key: string)
    requires |h| <= 1 && forall t | t in h :: t.key == key
    requires DistinctKeys(tail, UserTaskKey) && forall t | t in tail :: t.key != key
    ensures DistinctKeys(h + tail, UserTaskKey)
  {
    var r := h + tail;
    forall i, j | 0 <= i < j < |r| ensures r[i].key != r[j].key {
      if i < |h| {
        assert r[i] in h && r[j] == tail[j - |h|] && r[j] in tail;
      } else {
        assert r[i] == tail[i - |h|] && r[j] == tail[j - |h|];
      }
    }
  }

  // -----------------------------------------------------------------------
  // The no-worklog part

  /** `r` is `acc` followed by estimated entries only, each for one of the
      user's tasks and under a key no earlier entry has, and every task of
      the user has its key listed in `r`. */
  ghost predicate AppendsEstimates(acc: seq<UserTask>, tasks: seq<NoLogTask>, user: string, r: seq<UserTask>)
  {
    && |acc| <= |r|
    && r[..|acc|] == acc
    && (forall k | |acc| <= k < |r| ::
          && r[k].Estimated?
          && r[k].Status() == NoWorklogStatus
          && (forall m | 0 <= m < k :: r[m].key != r[k].key)
          && exists t | t in tasks :: t.assignee == user && r[k] == Estimated(t.key, t.summary, t.estimatedHours))
    && (forall t | t in tasks && t.assignee == user :: HasKey(r, t.key))
  }

  /** Appending never changes what is already listed. */
  lemma {:induction false} AddNoLogTasksPrefix(acc: seq<UserTask>, tasks: seq<NoLogTask>, user: string)
    ensures |acc| <= |AddNoLogTasks(acc, tasks, user)|
    ensures AddNoLogTasks(acc, tasks, user)[..|acc|] == acc
    decreases |tasks|
  {
    if |tasks| > 0 {
      var t := tasks[0];
      var next := if t.assignee == user && !HasKey(acc, t.key)
                  then acc + [Estimated(t.key, t.summary, t.estimatedHours)]
                  else acc;
      var r := AddNoLogTasks(acc, tasks, user);
      AddNoLogTasksPrefix(next, tasks[1..], user);
      assert next[..|acc|] == acc;
      assert r[..|acc|] == r[..|next|][..|acc|];
    }
  }

  /** Every appended entry is an estimate of one of the user's tasks, under a
      key no earlier entry has. */
  lemma {:induction false} AddNoLogTasksNew(acc: seq<UserTask>, tasks: seq<NoLogTask>, user: string)
    ensures forall k | |acc| <= k < |AddNoLogTasks(acc, tasks, user)| ::
      && AddNoLogTasks(acc, tasks, user)[k].Estimated?
      && (forall m | 0 <= m < k :: AddNoLogTasks(acc, tasks, user)[m].key != AddNoLogTasks(acc, tasks, user)[k].key)
      && exists t | t in tasks ::
           t.assignee == user && AddNoLogTasks(acc, tasks, user)[k] == Estimated(t.key, t.summary, t.estimatedHours)
    decreases |tasks|
  {
    if |tasks| > 0 {
      var t := tasks[0];
      var next := if t.assignee == user && !HasKey(acc, t.key)
                  then acc + [Estimated(t.key, t.summary, t.estimatedHours)]
                  else acc;
      var r := AddNoLogTasks(acc, tasks, user);
      assert r == AddNoLogTasks(next, tasks[1..], user);
      AddNoLogTasksNew(next, tasks[1..], user);
      AddNoLogTasksPrefix(next, tasks[1..], user);
      forall k | |acc| <= k < |r|
        ensures r[k].Estimated?
        ensures forall m | 0 <= m < k :: r[m].key != r[k].key
        ensures exists x | x in tasks :: x.assignee == user && r[k] == Estimated(x.key, x.summary, x.estimatedHours)
      {
        if k < |next| {
          assert k == |acc| && r[k] == next[k];
          assert t in tasks;
          forall m | 0 <= m < k ensures r[m].key != r[k].key {
            assert r[m] == next[m] == acc[m];
          }
        } else {
          var x :| x in tasks[1..] && x.assignee == user && r[k] == Estimated(x.key, x.summary, x.estimatedHours);
          assert x in tasks;
        }
      }
    }
  }

  /** Every task of the user ends up with its key listed. */
  lemma {:induction false} AddNoLogTasksCovers(acc: seq<UserTask>, tasks: seq<NoLogTask>, user: string)
    ensures forall x | x in tasks && x.assignee == user :: HasKey(AddNoLogTasks(acc, tasks, user), x.key)
    decreases |tasks|
  {
    if |tasks| > 0 {
      var t := tasks[0];
      var next := if t.assignee == user && !HasKey(acc, t.key)
                  then acc + [Estimated(t.key, t.summary, t.estimatedHours)]
                  else acc;
      var r := AddNoLogTasks(acc, tasks, user);
      assert r == AddNoLogTasks(next, tasks[1..], user);
      AddNoLogTasksCovers(next, tasks[1..], user);
      AddNoLogTasksPrefix(next, tasks[1..], user);
      forall x | x in tasks && x.assignee == user ensures HasKey(r, x.key) {
        if x == t {
          if HasKey(acc, t.key) {
            var k :| 0 <= k < |acc| && acc[k].key == t.key;
            assert r[k] == next[k];
          } else {
            assert r[|acc|] == next[|acc|];
          }
        } else {
          assert x in tasks[1..];
        }
      }
    }
  }

  /** Appending keeps what is already listed and adds only estimated
      entries of the user's tasks, each under a key not yet listed; every
      task of the user ends up with its key listed. */
  lemma AddNoLogTasksSpec(acc: seq<UserTask>, tasks: seq<NoLogTask>, user: string)
    ensures AppendsEstimates(acc, tasks, user, AddNoLogTasks(acc, tasks, user))
  {
    AddNoLogTasksPrefix(acc, tasks, user);
    AddNoLogTasksNew(acc, tasks, user);
    AddNoLogTasksCovers(acc, tasks, user);
  }

  // -----------------------------------------------------------------------
  // The whole list

  /** The list is sorted by hours, largest first, holds the same entries as
      the unsorted list and keeps entries with equal hours in that list's
      order. */
  lemma UserTasksOrder(stats: Stats, user: string)
    ensures var r := UserTasksDetails(stats, user);
      && SortedDesc(r, TaskHours)
      && multiset(r) == multiset(Unsorted(stats.full, user))
      && forall v :: WithKey(r, TaskHours, v) == WithKey(Unsorted(stats.full, user), TaskHours, v)
  {
    SortDescCorrect(Unsorted(stats.full, user), TaskHours);
  }

  /** Before sorting: the logged entries come first and are those of
      `LoggedTasks`; every later entry is an estimate of one of the user's
      no-worklog tasks, under a key no earlier entry has; and each of the
      user's no-worklog tasks has its key listed. */
  lemma UnsortedSpec(data: ProjectData, user: string)
    ensures AppendsEstimates(LoggedTasks(data.allWorklogs, data.allIssues, user, Periods(data.weeksInfo)),
                             data.tasksWithoutWorklog, user, Unsorted(data, user))
  {
    AddNoLogTasksSpec(LoggedTasks(data.allWorklogs, data.allIssues, user, Periods(data.weeksInfo)),
                      data.tasksWithoutWorklog, user);
  }

  /** With one `all_worklogs` entry per issue (as collecting produces), no
      key appears twice in the user's list. */
  lemma UserTasksDistinct(stats: Stats, user: string)
    requires DistinctKeys(stats.full.allWorklogs, IssueLogsKey)
    ensures DistinctKeys(UserTasksDetails(stats, user), UserTaskKey)
  {
    var data := stats.full;
    var logged := LoggedTasks(data.allWorklogs, data.allIssues, user, Periods(data.weeksInfo));
    var u := Unsorted(data, user);
    var r := UserTasksDetails(stats, user);
    assert forall i, j | 0 <= i < j < |data.allWorklogs| :: data.allWorklogs[i].key != data.allWorklogs[j].key by {
      forall i, j | 0 <= i < j < |data.allWorklogs| ensures data.allWorklogs[i].key != data.allWorklogs[j].key {
        assert IssueLogsKey(data.allWorklogs[i]) != IssueLogsKey(data.allWorklogs[j]);
      }
    }
    LoggedTasksDistinct(data.allWorklogs, data.allIssues, user, Periods(data.weeksInfo));
    AddNoLogTasksSpec(logged, data.tasksWithoutWorklog, user);
    forall i, j | 0 <= i < j < |u| ensures u[i].key != u[j].key {
      if j < |logged| {
        assert u[i] == logged[i] && u[j] == logged[j];
      }
    }
    SortDescCorrect(u, TaskHours);
    DistinctKeysOfPermutation(u, r);
  }

  /** A permutation of a list without repeated keys has none either. */
  lemma DistinctKeysOfPermutation(a: seq<UserTask>, b: seq<UserTask>)
    requires multiset(a) == multiset(b)
    requires forall i, j | 0 <= i < j < |a| :: a[i].key != a[j].key
    ensures forall i, j | 0 <= i < j < |b| :: b[i].key != b[j].key
  {
    forall i, j | 0 <= i < j < |b| ensures b[i].key != b[j].key {
      assert b[i] in multiset(a) && b[j] in multiset(a);
      var p :| 0 <= p < |a| && a[p] == b[i];
      var q :| 0 <= q < |a| && a[q] == b[j];
      if b[i].key == b[j].key {
        assert p == q;
        var x := b[i];
        assert b == b[..j] + [x] + b[j + 1..];
        assert x in multiset(b[..j]);
        assert multiset(b)[x] >= 2;
        OnceInKeyDistinct(a, p);
      }
    }
  }

  lemma {:induction false} OnceInKeyDistinct(a: seq<UserTask>, p: nat)
    requires p < |a|
    requires forall i, j | 0 <= i < j < |a| :: a[i].key != a[j].key
    ensures multiset(a)[a[p]] == 1
    decreases |a|
  {
    var rest := a[1..];
    assert a == [a[0]] + rest;
    if p == 0 {
      assert a[0] !in rest by {
        forall k | 0 <= k < |rest| ensures rest[k] != a[0] {
          assert rest[k] == a[k + 1];
        }
      }
    } else {
      assert rest[p - 1] == a[p];
      OnceInKeyDistinct(rest, p - 1);
    }
  }

  /** The sorted list holds exactly the entries of the unsorted one. */
  lemma UserTasksMembers(stats: Stats, user: string)
    ensures forall t :: t in UserTasksDetails(stats, user) <==> t in Unsorted(stats.full, user)
  {
    var u := Unsorted(stats.full, user);
    SortDescCorrect(u, TaskHours);
    forall t ensures t in UserTasksDetails(stats, user) <==> t in u {
      assert t in UserTasksDetails(stats, user) <==> t in multiset(UserTasksDetails(stats, user));
    }
  }

  /** On an analysis: the period is the union of the analysed windows; the
      user's list names every issue once; a logged entry exists exactly for
      the issues the user logged work on inside the period, with those
      worklogs; and every no-worklog task assigned to the user is listed. */
  lemma AnalyzedUserTasks(current: Instant, weeksCount: int, fetched: seq<seq<RawIssue>>,
      worklogsOf: map<string, seq<RawWorklog>>, user: string)
    requires |fetched| == |CalculateWorkingWeeks(current, weeksCount)|
    requires AnalyzeProject(current, weeksCount, fetched, worklogsOf).Ok?
    ensures Periods(AnalyzeProject(current, weeksCount, fetched, worklogsOf).value.full.weeksInfo)
         == CalculateWorkingWeeks(current, weeksCount)
    ensures DistinctKeys(UserTasksDetails(AnalyzeProject(current, weeksCount, fetched, worklogsOf).value, user), UserTaskKey)
    ensures var stats := AnalyzeProject(current, weeksCount, fetched, worklogsOf).value;
      var all := stats.full.allWorklogs;
      forall i | 0 <= i < |all| && |UserLogs(all[i].logs, user, CalculateWorkingWeeks(current, weeksCount))| > 0 ::
        exists t | t in UserTasksDetails(stats, user) ::
          t.Logged? && t.key == all[i].key && t.worklogs == UserLogs(all[i].logs, user, CalculateWorkingWeeks(current, weeksCount))
    ensures var stats := AnalyzeProject(current, weeksCount, fetched, worklogsOf).value;
      forall x | x in stats.full.tasksWithoutWorklog && x.assignee == user ::
        exists t | t in UserTasksDetails(stats, user) :: t.key == x.key
  {
    var stats := AnalyzeProject(current, weeksCount, fetched, worklogsOf).value;
    var data := stats.full;
    var weeks := CalculateWorkingWeeks(current, weeksCount);
    var logged := LoggedTasks(data.allWorklogs, data.allIssues, user, Periods(data.weeksInfo));
    var u := Unsorted(data, user);
    assert Periods(data.weeksInfo) == weeks;
    CollectWorklogsKeys(current, weeksCount, fetched, worklogsOf);
    UserTasksDistinct(stats, user);
    UserTasksMembers(stats, user);
    LoggedTasksMembers(data.allWorklogs, data.allIssues, user, weeks);
    UnsortedSpec(data, user);
    forall i | 0 <= i < |data.allWorklogs| && |UserLogs(data.allWorklogs[i].logs, user, weeks)| > 0
      ensures exists t | t in UserTasksDetails(stats, user) ::
        t.Logged? && t.key == data.allWorklogs[i].key && t.worklogs == UserLogs(data.allWorklogs[i].logs, user, weeks)
    {
      var t :| t in logged && t.key == data.allWorklogs[i].key && t.worklogs == UserLogs(data.allWorklogs[i].logs, user, weeks);
      var k :| 0 <= k < |logged| && logged[k] == t;
      assert u[..|logged|][k] == t;
      assert t in u;
    }
    forall x | x in data.tasksWithoutWorklog && x.assignee == user
      ensures exists t | t in UserTasksDetails(stats, user) :: t.key == x.key
    {
      assert HasKey(u, x.key);
      var k :| 0 <= k < |u| && u[k].key == x.key;
      assert u[k] in u;
    }
  }
}
