/** Raw collection (`collect_project_data` and its extractors): walk the
    issues fetched for each window, most recent window first, process every
    issue key once, and record its worklogs or, when it has none, a task
    without worklog tagged with the window it was first returned in.

    Fetching is an input: `fetched[i]` is the list returned for window `i`,
    and `worklogsOf` maps an issue key to its worklogs (a key it does not
    hold has none). */
module Collect {
  import opened Base
  import opened Windows
  import opened Records
  import opened Dedup
  import opened Tally

  datatype Person = Person(displayName: string, name: string)

  /** An issue as the tracker returns it. */
  datatype RawIssue = RawIssue(
    key: string,
    summary: string,
    status: string,
    created: string,
    updated: string,
    assignee: Option<Person>,
    reporter: Option<Person>,
    originalEstimate: Option<int>,
    priority: Option<string>,
    issueType: string,
    components: seq<string>,
    labels: seq<string>)

  /** A worklog as the tracker returns it; `startedDay` is the first ten
      characters of `started` read as `%Y-%m-%d`, None when they are not a
      valid date. */
  datatype RawWorklog = RawWorklog(
    id: string,
    author: Option<Person>,
    startedDay: Option<int>,
    created: string,
    updated: string,
    timeSpentSeconds: int,
    comment: Option<string>)

  const Unassigned: string := "Не назначен"
  const NotGiven: string := "Не указан"
  const UnknownAuthor: string := "Неизвестный автор"

  /** `seconds / 3600` as an exact quotient. */
  function SecondsToHours(seconds: int): (h: real)
    ensures h * 3600.0 == seconds as real
    ensures seconds >= 0 ==> h >= 0.0
  {
    seconds as real / 3600.0
  }

  /** `_extract_issue_data`: a missing assignee becomes "Не назначен", a
      missing reporter or priority "Не указан", and a missing or zero
      original estimate counts as 0 seconds; hours are seconds / 3600. */
  function ExtractIssueData(issue: RawIssue): (d: IssueData)
    ensures d.key == issue.key && d.summary == issue.summary && d.status == issue.status
    ensures issue.assignee.None? ==> d.assignee == Unassigned
    ensures issue.assignee.Some? ==> d.assignee == issue.assignee.value.displayName
    ensures issue.originalEstimate.None? ==> d.estimateSeconds == 0
    ensures issue.originalEstimate.Some? ==> d.estimateSeconds == issue.originalEstimate.value
    ensures d.estimateHours * 3600.0 == d.estimateSeconds as real
  {
    var estimate := if issue.originalEstimate.Some? then issue.originalEstimate.value else 0;
    IssueData(
      issue.key, issue.summary, issue.status, issue.created, issue.updated,
      if issue.assignee.Some? then issue.assignee.value.displayName else Unassigned,
      if issue.reporter.Some? then issue.reporter.value.displayName else NotGiven,
      estimate, SecondsToHours(estimate),
      if issue.priority.Some? then issue.priority.value else NotGiven,
      issue.issueType, issue.components, issue.labels)
  }

  /** `_extract_worklog_data`, given the parsed date of `started[:10]`: a
      missing author becomes "Неизвестный автор"; hours are
      `timeSpentSeconds` / 3600. */
  function ExtractWorklogData(w: RawWorklog, issueKey: string, day: int): (d: Worklog)
    ensures d.issueKey == issueKey && d.date == day && d.id == w.id
    ensures w.author.None? ==> d.author == UnknownAuthor && d.authorName == None
    ensures w.author.Some? ==>
      d.author == w.author.value.displayName && d.authorName == Some(w.author.value.name)
    ensures d.seconds == w.timeSpentSeconds && d.hours * 3600.0 == d.seconds as real
  {
    Worklog(
      w.id, issueKey,
      if w.author.Some? then w.author.value.displayName else UnknownAuthor,
      if w.author.Some? then Some(w.author.value.name) else None,
      day, w.created, w.updated, w.timeSpentSeconds,
      SecondsToHours(w.timeSpentSeconds), w.comment)
  }

  /** Extract every worklog of an issue, in order; one whose date does not
      parse aborts the whole collection. */
  function ExtractWorklogs(raws: seq<RawWorklog>, issueKey: string): (r: Result<seq<Worklog>>)
    ensures r.Err? <==> exists i | 0 <= i < |raws| :: raws[i].startedDay.None?
    ensures r.Err? ==> r.error == MalformedWorklogDate(issueKey)
    ensures r.Ok? ==> |r.value| == |raws|
    ensures r.Ok? ==> forall i | 0 <= i < |raws| ::
      raws[i].startedDay.Some? &&
      r.value[i] == ExtractWorklogData(raws[i], issueKey, raws[i].startedDay.value)
  {
    if |raws| == 0 then Ok([])
    else if raws[0].startedDay.None? then Err(MalformedWorklogDate(issueKey))
    else match ExtractWorklogs(raws[1..], issueKey)
      case Err(e) =>
        assert exists i | 0 <= i < |raws| :: raws[i].startedDay.None? by {
          var j :| 0 <= j < |raws[1..]| && raws[1..][j].startedDay.None?;
          assert raws[j + 1] == raws[1..][j];
        }
        Err(e)
      case Ok(rest) =>
        Ok([ExtractWorklogData(raws[0], issueKey, raws[0].startedDay.value)] + rest)
  }

  function WorklogsOf(worklogsOf: map<string, seq<RawWorklog>>, key: string): seq<RawWorklog>
  {
    if key in worklogsOf then worklogsOf[key] else []
  }

  predicate Malformed(worklogsOf: map<string, seq<RawWorklog>>, key: string)
  {
    ExtractWorklogs(WorklogsOf(worklogsOf, key), key).Err?
  }

  /** The extracted worklogs of an issue none of whose dates is malformed. */
  function LogsOf(worklogsOf: map<string, seq<RawWorklog>>, key: string): (logs: seq<Worklog>)
    requires !Malformed(worklogsOf, key)
    ensures |logs| == |WorklogsOf(worklogsOf, key)|
  {
    ExtractWorklogs(WorklogsOf(worklogsOf, key), key).value
  }

  // -----------------------------------------------------------------------
  // The loop as written

  /** An issue as returned for window `week`. */
  datatype Obs = Obs(week: nat, issue: RawIssue)

  function ObsKey(o: Obs): string { o.issue.key }

  /** The entry a first-seen issue without worklogs gets. */
  function NoLogTaskFor(o: Obs, weeks: seq<Window>): NoLogTask
    requires o.week < |weeks|
  {
    var d := ExtractIssueData(o.issue);
    NoLogTask(LabelOf(o.week, weeks[o.week]), o.issue.key, o.issue.summary,
              d.assignee, d.status, d.estimateHours)
  }

  /** What `users_hours` gains from a first-seen issue's worklogs: those dated
      inside the window the issue was returned for. */
  function UsersHoursEntries(o: Obs, weeks: seq<Window>, logs: seq<Worklog>): seq<(string, real)>
    requires o.week < |weeks|
  {
    HourEntries(InWindow(logs, weeks[o.week]))
  }

  /** Processing an issue whose key has not been recorded yet. */
  function FirstSighting(data: ProjectData, weeks: seq<Window>, o: Obs,
                         worklogsOf: map<string, seq<RawWorklog>>): Result<ProjectData>
    requires o.week < |weeks|
  {
    var key := o.issue.key;
    var data1 := data.(allIssues := data.allIssues[key := ExtractIssueData(o.issue)]);
    var raws := WorklogsOf(worklogsOf, key);
    if |raws| == 0 then
      Ok(data1.(tasksWithoutWorklog := data1.tasksWithoutWorklog + [NoLogTaskFor(o, weeks)]))
    else match ExtractWorklogs(raws, key)
      case Err(e) => Err(e)
      case Ok(logs) =>
        Ok(data1.(allWorklogs := data1.allWorklogs + [IssueLogs(key, logs)],
                  usersHours := Accumulate(data1.usersHours, UsersHoursEntries(o, weeks, logs))))
  }

  /** One issue of the inner loop: skipped when its key is already in
      `all_issues`. */
  function ProcessIssue(data: ProjectData, weeks: seq<Window>, o: Obs,
                        worklogsOf: map<string, seq<RawWorklog>>): Result<ProjectData>
    requires o.week < |weeks|
  {
    if o.issue.key in data.allIssues then Ok(data) else FirstSighting(data, weeks, o, worklogsOf)
  }

  /** The inner loop over the issues fetched for window `week`. */
  function ProcessWeekIssues(data: ProjectData, weeks: seq<Window>, week: nat, issues: seq<RawIssue>,
                             worklogsOf: map<string, seq<RawWorklog>>): Result<ProjectData>
    requires week < |weeks|
    decreases |issues|
  {
    if |issues| == 0 then Ok(data)
    else match ProcessIssue(data, weeks, Obs(week, issues[0]), worklogsOf)
      case Err(e) => Err(e)
      case Ok(d) => ProcessWeekIssues(d, weeks, week, issues[1..], worklogsOf)
  }

  /** The outer loop over windows `from`, `from + 1`, .... */
  function ProcessWeeks(data: ProjectData, weeks: seq<Window>, fetched: seq<seq<RawIssue>>, from: nat,
                        worklogsOf: map<string, seq<RawWorklog>>): Result<ProjectData>
    requires |fetched| == |weeks| && from <= |weeks|
    decreases |weeks| - from
  {
    if from == |weeks| then Ok(data)
    else match ProcessWeekIssues(data, weeks, from, fetched[from], worklogsOf)
      case Err(e) => Err(e)
      case Ok(d) => ProcessWeeks(d, weeks, fetched, from + 1, worklogsOf)
  }

  function WeeksInfo(weeks: seq<Window>, fetched: seq<seq<RawIssue>>): (infos: seq<WeekInfo>)
    requires |fetched| == |weeks|
    ensures |infos| == |weeks|
    ensures forall i | 0 <= i < |weeks| ::
      infos[i].window == weeks[i] && infos[i].issuesCount == |fetched[i]|
      && infos[i].name == LabelOf(i, weeks[i])
  {
    seq(|weeks|, i requires 0 <= i < |weeks| => WeekInfo(LabelOf(i, weeks[i]), weeks[i], |fetched[i]|))
  }

  /** The project data before the first issue is processed. */
  function Initial(weeks: seq<Window>, fetched: seq<seq<RawIssue>>): ProjectData
    requires |fetched| == |weeks|
  {
    ProjectData(WeeksInfo(weeks, fetched), map[], [], map[], [])
  }

  /** `collect_project_data` over already-fetched data; `fetched` holds one
      issue list per window of `calculate_working_weeks(current, weeksCount)`.
      Every window's `issues_count` is the length of its fetched list,
      re-fetched issues included. */
  function CollectProjectData(current: Instant, weeksCount: int, fetched: seq<seq<RawIssue>>,
                              worklogsOf: map<string, seq<RawWorklog>>): (r: Result<ProjectData>)
    requires |fetched| == |CalculateWorkingWeeks(current, weeksCount)|
    ensures r.Ok? ==> r.value.weeksInfo == WeeksInfo(CalculateWorkingWeeks(current, weeksCount), fetched)
  {
    var weeks := CalculateWorkingWeeks(current, weeksCount);
    ProcessWeeksKeepsWeeksInfo(Initial(weeks, fetched), weeks, fetched, 0, worklogsOf);
    ProcessWeeks(Initial(weeks, fetched), weeks, fetched, 0, worklogsOf)
  }

  // -----------------------------------------------------------------------
  // Reference definition: the first observation of every key

  /** The issues of one window, tagged with the window's index. */
  function Tag(week: nat, issues: seq<RawIssue>): (os: seq<Obs>)
    ensures |os| == |issues|
    ensures forall j | 0 <= j < |issues| :: os[j] == Obs(week, issues[j])
  {
    seq(|issues|, j requires 0 <= j < |issues| => Obs(week, issues[j]))
  }

  /** Every fetched issue in processing order: window by window, and within
      a window in fetch order. */
  function Observations(fetched: seq<seq<RawIssue>>, from: nat): seq<Obs>
    requires from <= |fetched|
    decreases |fetched| - from
  {
    if from == |fetched| then [] else Tag(from, fetched[from]) + Observations(fetched, from + 1)
  }

  /** The first time every issue key was returned. */
  function FirstObservations(fetched: seq<seq<RawIssue>>): seq<Obs>
  {
    DedupBy(Observations(fetched, 0), ObsKey)
  }

  /** The set of every fetched issue key. */
  function FetchedKeys(fetched: seq<seq<RawIssue>>): set<string>
  {
    set i, j | 0 <= i < |fetched| && 0 <= j < |fetched[i]| :: fetched[i][j].key
  }

  predicate ObsInRange(os: seq<Obs>, n: nat)
  {
    forall i | 0 <= i < |os| :: os[i].week < n
  }

  /** Processing first sightings in order, with no "already seen" check. */
  function FreshFold(data: ProjectData, weeks: seq<Window>, os: seq<Obs>,
                     worklogsOf: map<string, seq<RawWorklog>>): Result<ProjectData>
    requires ObsInRange(os, |weeks|)
    decreases |os|
  {
    if |os| == 0 then Ok(data)
    else match FirstSighting(data, weeks, os[0], worklogsOf)
      case Err(e) => Err(e)
      case Ok(d) => FreshFold(d, weeks, os[1..], worklogsOf)
  }

  /** The tasks-without-worklog list the first sightings produce. */
  function RefNoLogTasks(os: seq<Obs>, weeks: seq<Window>, worklogsOf: map<string, seq<RawWorklog>>): seq<NoLogTask>
    requires ObsInRange(os, |weeks|)
  {
    if |os| == 0 then []
    else
      (if |WorklogsOf(worklogsOf, os[0].issue.key)| == 0 then [NoLogTaskFor(os[0], weeks)] else [])
      + RefNoLogTasks(os[1..], weeks, worklogsOf)
  }

  /** The `all_worklogs` entries the first sightings produce. */
  function RefWorklogs(os: seq<Obs>, worklogsOf: map<string, seq<RawWorklog>>): seq<IssueLogs>
    requires forall i | 0 <= i < |os| :: !Malformed(worklogsOf, os[i].issue.key)
  {
    if |os| == 0 then []
    else
      var key := os[0].issue.key;
      var raws := WorklogsOf(worklogsOf, key);
      (if |raws| == 0 then [] else [IssueLogs(key, LogsOf(worklogsOf, key))])
      + RefWorklogs(os[1..], worklogsOf)
  }

  /** The `users_hours` contributions of the first sightings. */
  function RefHourEntries(os: seq<Obs>, weeks: seq<Window>, worklogsOf: map<string, seq<RawWorklog>>): seq<(string, real)>
    requires ObsInRange(os, |weeks|)
    requires forall i | 0 <= i < |os| :: !Malformed(worklogsOf, os[i].issue.key)
  {
    if |os| == 0 then []
    else
      var key := os[0].issue.key;
      var raws := WorklogsOf(worklogsOf, key);
      (if |raws| == 0 then [] else UsersHoursEntries(os[0], weeks, LogsOf(worklogsOf, key)))
      + RefHourEntries(os[1..], weeks, worklogsOf)
  }

  // -----------------------------------------------------------------------
  // From the loop as written to the reference

  lemma {:induction false} ProcessWeeksKeepsWeeksInfo(data: ProjectData, weeks: seq<Window>,
      fetched: seq<seq<RawIssue>>, from: nat, worklogsOf: map<string, seq<RawWorklog>>)
    requires |fetched| == |weeks| && from <= |weeks|
    ensures var r := ProcessWeeks(data, weeks, fetched, from, worklogsOf);
      r.Ok? ==> r.value.weeksInfo == data.weeksInfo
    decreases |weeks| - from
  {
    if from < |weeks| {
      var r := ProcessWeekIssues(data, weeks, from, fetched[from], worklogsOf);
      ProcessWeekIssuesKeepsWeeksInfo(data, weeks, from, fetched[from], worklogsOf);
      if r.Ok? {
        ProcessWeeksKeepsWeeksInfo(r.value, weeks, fetched, from + 1, worklogsOf);
      }
    }
  }

  lemma {:induction false} ProcessWeekIssuesKeepsWeeksInfo(data: ProjectData, weeks: seq<Window>, week: nat,
      issues: seq<RawIssue>, worklogsOf: map<string, seq<RawWorklog>>)
    requires week < |weeks|
    ensures var r := ProcessWeekIssues(data, weeks, week, issues, worklogsOf);
      r.Ok? ==> r.value.weeksInfo == data.weeksInfo
    decreases |issues|
  {
    if |issues| > 0 {
      var r := ProcessIssue(data, weeks, Obs(week, issues[0]), worklogsOf);
      if r.Ok? {
        ProcessWeekIssuesKeepsWeeksInfo(r.value, weeks, week, issues[1..], worklogsOf);
      }
    }
  }

  /** Left fold of `ProcessIssue` over a list of observations. */
  function ProcessAll(data: ProjectData, weeks: seq<Window>, os: seq<Obs>,
                      worklogsOf: map<string, seq<RawWorklog>>): Result<ProjectData>
    requires ObsInRange(os, |weeks|)
    decreases |os|
  {
    if |os| == 0 then Ok(data)
    else match ProcessIssue(data, weeks, os[0], worklogsOf)
      case Err(e) => Err(e)
      case Ok(d) => ProcessAll(d, weeks, os[1..], worklogsOf)
  }

  lemma {:induction false} ProcessAllAppend(data: ProjectData, weeks: seq<Window>, a: seq<Obs>, b: seq<Obs>,
      worklogsOf: map<string, seq<RawWorklog>>)
    requires ObsInRange(a, |weeks|) && ObsInRange(b, |weeks|)
    ensures ObsInRange(a + b, |weeks|)
    ensures ProcessAll(data, weeks, a + b, worklogsOf)
         == match ProcessAll(data, weeks, a, worklogsOf)
            case Err(e) => Err(e)
            case Ok(d) => ProcessAll(d, weeks, b, worklogsOf)
    decreases |a|
  {
    assert ObsInRange(a + b, |weeks|);
    if |a| == 0 {
      assert a + b == b;
    } else {
      assert (a + b)[0] == a[0];
      assert (a + b)[1..] == a[1..] + b;
      var r := ProcessIssue(data, weeks, a[0], worklogsOf);
      if r.Ok? {
        ProcessAllAppend(r.value, weeks, a[1..], b, worklogsOf);
      }
    }
  }

  lemma {:induction false} ProcessWeekIssuesIsProcessAll(data: ProjectData, weeks: seq<Window>, week: nat,
      issues: seq<RawIssue>, worklogsOf: map<string, seq<RawWorklog>>)
    requires week < |weeks|
    ensures ObsInRange(Tag(week, issues), |weeks|)
    ensures ProcessWeekIssues(data, weeks, week, issues, worklogsOf)
         == ProcessAll(data, weeks, Tag(week, issues), worklogsOf)
    decreases |issues|
  {
    if |issues| > 0 {
      assert Tag(week, issues)[1..] == Tag(week, issues[1..]);
      var r := ProcessIssue(data, weeks, Obs(week, issues[0]), worklogsOf);
      if r.Ok? {
        ProcessWeekIssuesIsProcessAll(r.value, weeks, week, issues[1..], worklogsOf);
      }
    }
  }

  lemma {:induction false} ObservationsInRange(fetched: seq<seq<RawIssue>>, from: nat)
    requires from <= |fetched|
    ensures ObsInRange(Observations(fetched, from), |fetched|)
    ensures forall i | 0 <= i < |Observations(fetched, from)| :: Observations(fetched, from)[i].week >= from
    decreases |fetched| - from
  {
    if from < |fetched| {
      ObservationsInRange(fetched, from + 1);
    }
  }

  /** The nested loops process exactly the flattened observations. */
  lemma {:induction false} ProcessWeeksIsProcessAll(data: ProjectData, weeks: seq<Window>,
      fetched: seq<seq<RawIssue>>, from: nat, worklogsOf: map<string, seq<RawWorklog>>)
    requires |fetched| == |weeks| && from <= |weeks|
    ensures ObsInRange(Observations(fetched, from), |weeks|)
    ensures ProcessWeeks(data, weeks, fetched, from, worklogsOf)
         == ProcessAll(data, weeks, Observations(fetched, from), worklogsOf)
    decreases |weeks| - from
  {
    ObservationsInRange(fetched, from);
    if from < |weeks| {
      var head, tail := Tag(from, fetched[from]), Observations(fetched, from + 1);
      assert Observations(fetched, from) == head + tail;
      ObservationsInRange(fetched, from + 1);
      ProcessWeekIssuesIsProcessAll(data, weeks, from, fetched[from], worklogsOf);
      ProcessAllAppend(data, weeks, head, tail, worklogsOf);
      var r := ProcessWeekIssues(data, weeks, from, fetched[from], worklogsOf);
      if r.Ok? {
        ProcessWeeksIsProcessAll(r.value, weeks, fetched, from + 1, worklogsOf);
      }
    }
  }

  lemma FirstSightingRecordsKey(data: ProjectData, weeks: seq<Window>, o: Obs,
      worklogsOf: map<string, seq<RawWorklog>>)
    requires o.week < |weeks|
    ensures var r := FirstSighting(data, weeks, o, worklogsOf);
      r.Ok? ==> r.value.allIssues.Keys == data.allIssues.Keys + {o.issue.key}
  {
  }

  lemma DedupFromInRange(os: seq<Obs>, seen: set<string>, n: nat)
    requires ObsInRange(os, n)
    ensures ObsInRange(DedupFrom(os, ObsKey, seen), n)
  {
    DedupFromSubset(os, ObsKey, seen);
  }

  /** Skipping already-recorded keys is the same as processing only the
      first sightings, each unconditionally. */
  lemma {:induction false} ProcessAllIsFreshFold(data: ProjectData, weeks: seq<Window>, os: seq<Obs>,
      worklogsOf: map<string, seq<RawWorklog>>)
    requires ObsInRange(os, |weeks|)
    ensures ObsInRange(DedupFrom(os, ObsKey, data.allIssues.Keys), |weeks|)
    ensures ProcessAll(data, weeks, os, worklogsOf)
         == FreshFold(data, weeks, DedupFrom(os, ObsKey, data.allIssues.Keys), worklogsOf)
    decreases |os|
  {
    DedupFromInRange(os, data.allIssues.Keys, |weeks|);
    if |os| > 0 {
      var k := os[0].issue.key;
      assert ObsInRange(os[1..], |weeks|);
      if k in data.allIssues {
        ProcessAllIsFreshFold(data, weeks, os[1..], worklogsOf);
      } else {
        var r := FirstSighting(data, weeks, os[0], worklogsOf);
        var ds := DedupFrom(os, ObsKey, data.allIssues.Keys);
        assert ds[0] == os[0];
        assert ds[1..] == DedupFrom(os[1..], ObsKey, data.allIssues.Keys + {k});
        if r.Ok? {
          FirstSightingRecordsKey(data, weeks, os[0], worklogsOf);
          ProcessAllIsFreshFold(r.value, weeks, os[1..], worklogsOf);
        }
      }
    }
  }

  /** No first sighting has a worklog whose date does not parse. */
  predicate AllWellFormed(os: seq<Obs>, worklogsOf: map<string, seq<RawWorklog>>)
  {
    forall i | 0 <= i < |os| :: !Malformed(worklogsOf, os[i].issue.key)
  }

  lemma FirstSightingFails(data: ProjectData, weeks: seq<Window>, o: Obs,
      worklogsOf: map<string, seq<RawWorklog>>)
    requires o.week < |weeks|
    ensures FirstSighting(data, weeks, o, worklogsOf).Err? <==> Malformed(worklogsOf, o.issue.key)
  {
  }

  /** A first sighting without malformed dates, field by field. */
  lemma FirstSightingOk(data: ProjectData, weeks: seq<Window>, o: Obs,
      worklogsOf: map<string, seq<RawWorklog>>)
    requires o.week < |weeks|
    requires !Malformed(worklogsOf, o.issue.key)
    ensures var r := FirstSighting(data, weeks, o, worklogsOf);
      var key := o.issue.key;
      var none := |WorklogsOf(worklogsOf, key)| == 0;
      && r.Ok?
      && r.value.weeksInfo == data.weeksInfo
      && r.value.allIssues == data.allIssues[key := ExtractIssueData(o.issue)]
      && r.value.tasksWithoutWorklog
         == data.tasksWithoutWorklog + (if none then [NoLogTaskFor(o, weeks)] else [])
      && r.value.allWorklogs
         == data.allWorklogs + (if none then [] else [IssueLogs(key, LogsOf(worklogsOf, key))])
      && r.value.usersHours
         == Accumulate(data.usersHours, if none then [] else UsersHoursEntries(o, weeks, LogsOf(worklogsOf, key)))
  {
    var key := o.issue.key;
    if |WorklogsOf(worklogsOf, key)| == 0 {
      assert data.allWorklogs + [] == data.allWorklogs;
    } else {
      assert data.tasksWithoutWorklog + [] == data.tasksWithoutWorklog;
    }
  }

  lemma FreshFoldCons(data: ProjectData, weeks: seq<Window>, os: seq<Obs>,
      worklogsOf: map<string, seq<RawWorklog>>)
    requires ObsInRange(os, |weeks|) && |os| > 0
    requires !Malformed(worklogsOf, os[0].issue.key)
    ensures ObsInRange(os[1..], |weeks|)
    ensures FirstSighting(data, weeks, os[0], worklogsOf).Ok?
    ensures FreshFold(data, weeks, os, worklogsOf)
         == FreshFold(FirstSighting(data, weeks, os[0], worklogsOf).value, weeks, os[1..], worklogsOf)
  {
    FirstSightingOk(data, weeks, os[0], worklogsOf);
  }

  lemma AllWellFormedTail(os: seq<Obs>, worklogsOf: map<string, seq<RawWorklog>>)
    requires |os| > 0 && AllWellFormed(os, worklogsOf)
    ensures !Malformed(worklogsOf, os[0].issue.key)
    ensures AllWellFormed(os[1..], worklogsOf)
  {
    forall i | 0 <= i < |os[1..]| ensures !Malformed(worklogsOf, os[1..][i].issue.key) {
      assert os[1..][i] == os[i + 1];
    }
  }

  /** Processing first sightings fails exactly when one of them has a
      worklog whose date does not parse. */
  lemma {:induction false} FreshFoldFails(data: ProjectData, weeks: seq<Window>, os: seq<Obs>,
      worklogsOf: map<string, seq<RawWorklog>>)
    requires ObsInRange(os, |weeks|)
    ensures FreshFold(data, weeks, os, worklogsOf).Err? <==> !AllWellFormed(os, worklogsOf)
    decreases |os|
  {
    if |os| > 0 {
      var rest := os[1..];
      assert ObsInRange(rest, |weeks|);
      FirstSightingFails(data, weeks, os[0], worklogsOf);
      var r0 := FirstSighting(data, weeks, os[0], worklogsOf);
      if r0.Ok? {
        FreshFoldFails(r0.value, weeks, rest, worklogsOf);
        assert AllWellFormed(os, worklogsOf) <==> AllWellFormed(rest, worklogsOf) by {
          if AllWellFormed(rest, worklogsOf) {
            forall i | 0 < i < |os| ensures !Malformed(worklogsOf, os[i].issue.key) {
              assert os[i] == rest[i - 1];
            }
          }
          if AllWellFormed(os, worklogsOf) {
            forall i | 0 <= i < |rest| ensures !Malformed(worklogsOf, rest[i].issue.key) {
              assert rest[i] == os[i + 1];
            }
          }
        }
      }
    }
  }

  /** Without malformed dates, processing first sightings appends the
      reference no-worklog tasks. */
  lemma {:induction false} FreshFoldTasks(data: ProjectData, weeks: seq<Window>, os: seq<Obs>,
      worklogsOf: map<string, seq<RawWorklog>>)
    requires ObsInRange(os, |weeks|)
    requires AllWellFormed(os, worklogsOf)
    ensures var r := FreshFold(data, weeks, os, worklogsOf);
      r.Ok? && r.value.tasksWithoutWorklog == data.tasksWithoutWorklog + RefNoLogTasks(os, weeks, worklogsOf)
    decreases |os|
  {
    if |os| == 0 {
      assert data.tasksWithoutWorklog + [] == data.tasksWithoutWorklog;
    } else {
      var rest := os[1..];
      AllWellFormedTail(os, worklogsOf);
      FreshFoldCons(data, weeks, os, worklogsOf);
      FirstSightingOk(data, weeks, os[0], worklogsOf);
      var d := FirstSighting(data, weeks, os[0], worklogsOf).value;
      FreshFoldTasks(d, weeks, rest, worklogsOf);
      var head := if |WorklogsOf(worklogsOf, os[0].issue.key)| == 0 then [NoLogTaskFor(os[0], weeks)] else [];
      AppendAssoc(data.tasksWithoutWorklog, head, RefNoLogTasks(rest, weeks, worklogsOf));
    }
  }

  /** Without malformed dates, processing first sightings appends the
      reference `all_worklogs` entries. */
  lemma {:induction false} FreshFoldWorklogs(data: ProjectData, weeks: seq<Window>, os: seq<Obs>,
      worklogsOf: map<string, seq<RawWorklog>>)
    requires ObsInRange(os, |weeks|)
    requires AllWellFormed(os, worklogsOf)
    ensures var r := FreshFold(data, weeks, os, worklogsOf);
      r.Ok? && r.value.allWorklogs == data.allWorklogs + RefWorklogs(os, worklogsOf)
    decreases |os|
  {
    if |os| == 0 {
      assert data.allWorklogs + [] == data.allWorklogs;
    } else {
      var rest := os[1..];
      var key := os[0].issue.key;
      AllWellFormedTail(os, worklogsOf);
      FreshFoldCons(data, weeks, os, worklogsOf);
      FirstSightingOk(data, weeks, os[0], worklogsOf);
      var d := FirstSighting(data, weeks, os[0], worklogsOf).value;
      FreshFoldWorklogs(d, weeks, rest, worklogsOf);
      var head := if |WorklogsOf(worklogsOf, key)| == 0 then [] else [IssueLogs(key, LogsOf(worklogsOf, key))];
      AppendAssoc(data.allWorklogs, head, RefWorklogs(rest, worklogsOf));
    }
  }

  /** Without malformed dates, processing first sightings tallies the
      reference hour entries into `users_hours`. */
  lemma {:induction false} FreshFoldHours(data: ProjectData, weeks: seq<Window>, os: seq<Obs>,
      worklogsOf: map<string, seq<RawWorklog>>)
    requires ObsInRange(os, |weeks|)
    requires AllWellFormed(os, worklogsOf)
    ensures var r := FreshFold(data, weeks, os, worklogsOf);
      r.Ok? && r.value.usersHours == Accumulate(data.usersHours, RefHourEntries(os, weeks, worklogsOf))
    decreases |os|
  {
    if |os| > 0 {
      var rest := os[1..];
      var key := os[0].issue.key;
      AllWellFormedTail(os, worklogsOf);
      FreshFoldCons(data, weeks, os, worklogsOf);
      FirstSightingOk(data, weeks, os[0], worklogsOf);
      var d := FirstSighting(data, weeks, os[0], worklogsOf).value;
      FreshFoldHours(d, weeks, rest, worklogsOf);
      var head := if |WorklogsOf(worklogsOf, key)| == 0 then [] else UsersHoursEntries(os[0], weeks, LogsOf(worklogsOf, key));
      AccumulateAppend(data.usersHours, head, RefHourEntries(rest, weeks, worklogsOf));
    }
  }

  /** Processing first sightings records exactly their keys on top of the
      existing ones, and leaves alone every entry whose key none of them
      carries. */
  lemma {:induction false} FreshFoldIssueKeys(data: ProjectData, weeks: seq<Window>, os: seq<Obs>,
      worklogsOf: map<string, seq<RawWorklog>>)
    requires ObsInRange(os, |weeks|)
    requires AllWellFormed(os, worklogsOf)
    ensures var r := FreshFold(data, weeks, os, worklogsOf);
      && r.Ok?
      && r.value.allIssues.Keys == data.allIssues.Keys + KeysOf(os, ObsKey)
      && (forall k | k in data.allIssues && k !in KeysOf(os, ObsKey) :: r.value.allIssues[k] == data.allIssues[k])
    decreases |os|
  {
    if |os| == 0 {
      assert KeysOf(os, ObsKey) == {};
    } else {
      var rest := os[1..];
      AllWellFormedTail(os, worklogsOf);
      FreshFoldCons(data, weeks, os, worklogsOf);
      FirstSightingOk(data, weeks, os[0], worklogsOf);
      KeysOfCons(os, ObsKey);
      var d := FirstSighting(data, weeks, os[0], worklogsOf).value;
      var k0 := ObsKey(os[0]);
      assert d.allIssues.Keys == data.allIssues.Keys + {k0};
      FreshFoldIssueKeys(d, weeks, rest, worklogsOf);
      var r := FreshFold(d, weeks, rest, worklogsOf).value;
      forall k | k in data.allIssues && k !in KeysOf(os, ObsKey) ensures r.allIssues[k] == data.allIssues[k] {
        assert k != k0 && k !in KeysOf(rest, ObsKey);
      }
    }
  }

  /** Processing first sightings with distinct keys records every one of
      them with the data extracted from that sighting. */
  lemma {:induction false} FreshFoldIssues(data: ProjectData, weeks: seq<Window>, os: seq<Obs>,
      worklogsOf: map<string, seq<RawWorklog>>)
    requires ObsInRange(os, |weeks|)
    requires AllWellFormed(os, worklogsOf)
    requires DistinctKeys(os, ObsKey)
    ensures var r := FreshFold(data, weeks, os, worklogsOf);
      && r.Ok?
      && (forall i | 0 <= i < |os| ::
            os[i].issue.key in r.value.allIssues
            && r.value.allIssues[os[i].issue.key] == ExtractIssueData(os[i].issue))
    decreases |os|
  {
    if |os| > 0 {
      var rest := os[1..];
      var key := os[0].issue.key;
      AllWellFormedTail(os, worklogsOf);
      FreshFoldCons(data, weeks, os, worklogsOf);
      FirstSightingOk(data, weeks, os[0], worklogsOf);
      KeysOfCons(os, ObsKey);
      assert key !in KeysOf(rest, ObsKey);
      assert DistinctKeys(rest, ObsKey);
      var d := FirstSighting(data, weeks, os[0], worklogsOf).value;
      FreshFoldIssueKeys(d, weeks, rest, worklogsOf);
      FreshFoldIssues(d, weeks, rest, worklogsOf);
      var r := FreshFold(d, weeks, rest, worklogsOf);
      forall i | 0 < i < |os|
        ensures os[i].issue.key in r.value.allIssues
        ensures r.value.allIssues[os[i].issue.key] == ExtractIssueData(os[i].issue)
      {
        assert os[i] == rest[i - 1];
      }
    }
  }

  /** Folding two batches of entries one after the other is folding their
      concatenation. */
  lemma {:induction false} AccumulateAppend(m: map<string, real>, a: seq<(string, real)>, b: seq<(string, real)>)
    ensures Accumulate(m, a + b) == Accumulate(Accumulate(m, a), b)
    decreases |a|
  {
    if |a| == 0 {
      assert a + b == b;
    } else {
      assert (a + b)[0] == a[0];
      assert (a + b)[1..] == a[1..] + b;
      AccumulateAppend(Add(m, a[0].0, a[0].1), a[1..], b);
    }
  }

  /** The nested loops with their "already processed" check are the same as
      processing the first observation of every key unconditionally. */
  lemma CollectIsFreshFold(current: Instant, weeksCount: int, fetched: seq<seq<RawIssue>>,
      worklogsOf: map<string, seq<RawWorklog>>)
    requires |fetched| == |CalculateWorkingWeeks(current, weeksCount)|
    ensures ObsInRange(FirstObservations(fetched), |fetched|)
    ensures DistinctKeys(FirstObservations(fetched), ObsKey)
    ensures KeysOf(FirstObservations(fetched), ObsKey) == FetchedKeys(fetched)
    ensures CollectProjectData(current, weeksCount, fetched, worklogsOf)
         == FreshFold(Initial(CalculateWorkingWeeks(current, weeksCount), fetched),
                      CalculateWorkingWeeks(current, weeksCount), FirstObservations(fetched), worklogsOf)
  {
    var weeks := CalculateWorkingWeeks(current, weeksCount);
    var start := Initial(weeks, fetched);
    var obs := Observations(fetched, 0);
    ProcessWeeksIsProcessAll(start, weeks, fetched, 0, worklogsOf);
    ProcessAllIsFreshFold(start, weeks, obs, worklogsOf);
    assert start.allIssues.Keys == {};
    DedupByKeys(obs, ObsKey);
    ObservationsKeys(fetched);
  }

  /** `collect_project_data` fails exactly when some fetched issue has a
      worklog whose date does not parse. */
  lemma CollectFailsIffMalformed(current: Instant, weeksCount: int, fetched: seq<seq<RawIssue>>,
      worklogsOf: map<string, seq<RawWorklog>>)
    requires |fetched| == |CalculateWorkingWeeks(current, weeksCount)|
    ensures CollectProjectData(current, weeksCount, fetched, worklogsOf).Err?
        <==> exists k | k in FetchedKeys(fetched) :: Malformed(worklogsOf, k)
    ensures CollectProjectData(current, weeksCount, fetched, worklogsOf).Ok?
        <==> AllWellFormed(FirstObservations(fetched), worklogsOf)
  {
    var weeks := CalculateWorkingWeeks(current, weeksCount);
    var firsts := FirstObservations(fetched);
    CollectIsFreshFold(current, weeksCount, fetched, worklogsOf);
    FreshFoldFails(Initial(weeks, fetched), weeks, firsts, worklogsOf);
    MalformedKeys(firsts, FetchedKeys(fetched), worklogsOf);
  }

  /** Over observations covering a key set, some key is malformed exactly
      when some observation is. */
  lemma MalformedKeys(os: seq<Obs>, keys: set<string>, worklogsOf: map<string, seq<RawWorklog>>)
    requires KeysOf(os, ObsKey) == keys
    ensures (exists k | k in keys :: Malformed(worklogsOf, k)) <==> !AllWellFormed(os, worklogsOf)
  {
    if !AllWellFormed(os, worklogsOf) {
      var i :| 0 <= i < |os| && Malformed(worklogsOf, os[i].issue.key);
      assert ObsKey(os[i]) in keys;
    }
    if exists k | k in keys :: Malformed(worklogsOf, k) {
      var k :| k in keys && Malformed(worklogsOf, k);
      var i :| 0 <= i < |os| && ObsKey(os[i]) == k;
      assert Malformed(worklogsOf, os[i].issue.key);
    }
  }

  /** `collect_project_data` against the reference, when it succeeds: every
      fetched key is in `all_issues` with the data of its first sighting, and
      the no-worklog tasks, the worklog entries and `users_hours` are those
      the first sightings produce, in order. */
  lemma CollectProjectDataSpec(current: Instant, weeksCount: int, fetched: seq<seq<RawIssue>>,
      worklogsOf: map<string, seq<RawWorklog>>)
    requires |fetched| == |CalculateWorkingWeeks(current, weeksCount)|
    ensures ObsInRange(FirstObservations(fetched), |fetched|)
    ensures var r := CollectProjectData(current, weeksCount, fetched, worklogsOf);
      var weeks := CalculateWorkingWeeks(current, weeksCount);
      var firsts := FirstObservations(fetched);
      r.Ok? ==>
        && AllWellFormed(firsts, worklogsOf)
        && r.value.allIssues.Keys == FetchedKeys(fetched)
        && (forall i | 0 <= i < |firsts| ::
              firsts[i].issue.key in r.value.allIssues
              && r.value.allIssues[firsts[i].issue.key] == ExtractIssueData(firsts[i].issue))
        && r.value.tasksWithoutWorklog == RefNoLogTasks(firsts, weeks, worklogsOf)
        && r.value.allWorklogs == RefWorklogs(firsts, worklogsOf)
        && r.value.usersHours == Totals(RefHourEntries(firsts, weeks, worklogsOf))
  {
    var weeks := CalculateWorkingWeeks(current, weeksCount);
    var firsts := FirstObservations(fetched);
    var start := Initial(weeks, fetched);
    CollectIsFreshFold(current, weeksCount, fetched, worklogsOf);
    CollectFailsIffMalformed(current, weeksCount, fetched, worklogsOf);
    if AllWellFormed(firsts, worklogsOf) {
      assert start.allIssues.Keys == {};
      FreshFoldIssueKeys(start, weeks, firsts, worklogsOf);
      FreshFoldIssues(start, weeks, firsts, worklogsOf);
      FreshFoldTasks(start, weeks, firsts, worklogsOf);
      FreshFoldWorklogs(start, weeks, firsts, worklogsOf);
      FreshFoldHours(start, weeks, firsts, worklogsOf);
      assert start.tasksWithoutWorklog + RefNoLogTasks(firsts, weeks, worklogsOf) == RefNoLogTasks(firsts, weeks, worklogsOf);
      assert start.allWorklogs + RefWorklogs(firsts, worklogsOf) == RefWorklogs(firsts, worklogsOf);
    }
  }

  /** The observations carry exactly the fetched keys. */
  lemma ObservationsKeys(fetched: seq<seq<RawIssue>>)
    ensures KeysOf(Observations(fetched, 0), ObsKey) == FetchedKeys(fetched)
  {
    ObservationsKeysFrom(fetched, 0);
  }

  lemma {:induction false} ObservationsKeysFrom(fetched: seq<seq<RawIssue>>, from: nat)
    requires from <= |fetched|
    ensures KeysOf(Observations(fetched, from), ObsKey)
         == set i, j | from <= i < |fetched| && 0 <= j < |fetched[i]| :: fetched[i][j].key
    decreases |fetched| - from
  {
    var lhs := KeysOf(Observations(fetched, from), ObsKey);
    var rhs := set i, j | from <= i < |fetched| && 0 <= j < |fetched[i]| :: fetched[i][j].key;
    if from == |fetched| {
      assert rhs == {};
    } else {
      var head := Tag(from, fetched[from]);
      var tail := Observations(fetched, from + 1);
      ObservationsKeysFrom(fetched, from + 1);
      KeysOfAppend(head, tail, ObsKey);
      var tailKeys := set i, j | from + 1 <= i < |fetched| && 0 <= j < |fetched[i]| :: fetched[i][j].key;
      forall k | k in rhs ensures k in lhs {
        var i, j :| from <= i < |fetched| && 0 <= j < |fetched[i]| && fetched[i][j].key == k;
        if i == from {
          assert ObsKey(head[j]) == k;
        } else {
          assert k in tailKeys;
        }
      }
      forall k | k in lhs ensures k in rhs {
        if k in KeysOf(head, ObsKey) {
          var j :| 0 <= j < |head| && ObsKey(head[j]) == k;
          assert fetched[from][j].key == k;
        } else {
          assert k in tailKeys;
          var i, j :| from + 1 <= i < |fetched| && 0 <= j < |fetched[i]| && fetched[i][j].key == k;
        }
      }
    }
  }
  // -----------------------------------------------------------------------
  // Tasks without worklog: one per key, tagged with its first window

  function ObsWeek(o: Obs): int { o.week }

  lemma {:induction false} ObservationsAscending(fetched: seq<seq<RawIssue>>, from: nat)
    requires from <= |fetched|
    ensures forall i, j | 0 <= i < j < |Observations(fetched, from)| ::
      ObsWeek(Observations(fetched, from)[i]) <= ObsWeek(Observations(fetched, from)[j])
    decreases |fetched| - from
  {
    if from < |fetched| {
      ObservationsAscending(fetched, from + 1);
      ObservationsInRange(fetched, from + 1);
      var head := Tag(from, fetched[from]);
      var tail := Observations(fetched, from + 1);
      var os := head + tail;
      forall i, j | 0 <= i < j < |os| ensures ObsWeek(os[i]) <= ObsWeek(os[j]) {
        if j < |head| {
          assert os[i] == head[i] && os[j] == head[j];
        } else if i < |head| {
          assert os[i] == head[i] && os[j] == tail[j - |head|];
        } else {
          assert os[i] == tail[i - |head|] && os[j] == tail[j - |head|];
        }
      }
    }
  }

  lemma {:induction false} ObservationsHold(fetched: seq<seq<RawIssue>>, from: nat, w: nat, j: nat)
    requires from <= w < |fetched| && j < |fetched[w]|
    ensures Obs(w, fetched[w][j]) in Observations(fetched, from)
    decreases |fetched| - from
  {
    var head := Tag(from, fetched[from]);
    if w == from {
      assert head[j] == Obs(w, fetched[w][j]);
    } else {
      ObservationsHold(fetched, from + 1, w, j);
    }
  }

  /** Window `w` returned an issue with this key. */
  predicate ReturnedIn(fetched: seq<seq<RawIssue>>, w: nat, key: string)
    requires w < |fetched|
  {
    exists j | 0 <= j < |fetched[w]| :: fetched[w][j].key == key
  }

  /** `w` is the first window (the most recent one) that returned this key. */
  predicate FirstReturnedIn(fetched: seq<seq<RawIssue>>, key: string, w: nat)
  {
    w < |fetched| && ReturnedIn(fetched, w, key)
    && forall v | 0 <= v < w :: !ReturnedIn(fetched, v, key)
  }

  /** The first observation of a key comes from the first window that
      returned it. */
  lemma FirstObservationsEarliest(fetched: seq<seq<RawIssue>>)
    ensures ObsInRange(FirstObservations(fetched), |fetched|)
    ensures forall i | 0 <= i < |FirstObservations(fetched)| ::
      FirstReturnedIn(fetched, FirstObservations(fetched)[i].issue.key, FirstObservations(fetched)[i].week)
  {
    var obs := Observations(fetched, 0);
    var firsts := FirstObservations(fetched);
    ObservationsInRange(fetched, 0);
    DedupFromInRange(obs, {}, |fetched|);
    ObservationsAscending(fetched, 0);
    DedupFromEarliest(obs, ObsKey, {}, ObsWeek);
    DedupFromSubset(obs, ObsKey, {});
    forall i | 0 <= i < |firsts|
      ensures FirstReturnedIn(fetched, firsts[i].issue.key, firsts[i].week)
    {
      assert firsts[i] in obs;
      EarliestObservation(fetched, firsts[i]);
    }
  }

  /** An observation no later than any other of its key marks the first
      window that returned the key. */
  lemma EarliestObservation(fetched: seq<seq<RawIssue>>, o: Obs)
    requires o in Observations(fetched, 0)
    requires forall y | y in Observations(fetched, 0) && ObsKey(y) == ObsKey(o) :: ObsWeek(o) <= ObsWeek(y)
    ensures FirstReturnedIn(fetched, o.issue.key, o.week)
  {
    var obs := Observations(fetched, 0);
    var p :| 0 <= p < |obs| && obs[p] == o;
    ObservationWitness(fetched, 0, p);
    forall v | 0 <= v < o.week ensures !ReturnedIn(fetched, v, o.issue.key) {
      if ReturnedIn(fetched, v, o.issue.key) {
        var j :| 0 <= j < |fetched[v]| && fetched[v][j].key == o.issue.key;
        ObservationsHold(fetched, 0, v, j);
      }
    }
  }

  lemma {:induction false} ObservationWitness(fetched: seq<seq<RawIssue>>, from: nat, p: nat)
    requires from <= |fetched| && p < |Observations(fetched, from)|
    ensures var o := Observations(fetched, from)[p];
      o.week < |fetched| && ReturnedIn(fetched, o.week, o.issue.key)
    decreases |fetched| - from
  {
    var head := Tag(from, fetched[from]);
    if p < |head| {
      assert fetched[from][p].key == head[p].issue.key;
    } else {
      ObservationWitness(fetched, from + 1, p - |head|);
    }
  }

  /** The reference task list: one task per first sighting without
      worklogs, in order. */
  lemma {:induction false} RefNoLogTasksMembers(os: seq<Obs>, weeks: seq<Window>, worklogsOf: map<string, seq<RawWorklog>>)
    requires ObsInRange(os, |weeks|)
    ensures forall t | t in RefNoLogTasks(os, weeks, worklogsOf) :: exists i | 0 <= i < |os| ::
      t == NoLogTaskFor(os[i], weeks) && |WorklogsOf(worklogsOf, os[i].issue.key)| == 0
    ensures forall i | 0 <= i < |os| && |WorklogsOf(worklogsOf, os[i].issue.key)| == 0 ::
      NoLogTaskFor(os[i], weeks) in RefNoLogTasks(os, weeks, worklogsOf)
    decreases |os|
  {
    if |os| > 0 {
      var rest := os[1..];
      assert ObsInRange(rest, |weeks|);
      RefNoLogTasksMembers(rest, weeks, worklogsOf);
      var ts := RefNoLogTasks(os, weeks, worklogsOf);
      forall t | t in ts ensures exists i | 0 <= i < |os| ::
        t == NoLogTaskFor(os[i], weeks) && |WorklogsOf(worklogsOf, os[i].issue.key)| == 0
      {
        if t !in RefNoLogTasks(rest, weeks, worklogsOf) {
          assert t == NoLogTaskFor(os[0], weeks);
        } else {
          var i :| 0 <= i < |rest| && t == NoLogTaskFor(rest[i], weeks)
            && |WorklogsOf(worklogsOf, rest[i].issue.key)| == 0;
          assert rest[i] == os[i + 1];
        }
      }
      forall i | 0 <= i < |os| && |WorklogsOf(worklogsOf, os[i].issue.key)| == 0
        ensures NoLogTaskFor(os[i], weeks) in ts
      {
        if i > 0 { assert os[i] == rest[i - 1]; }
      }
    }
  }

  /** Tasks run from the most recent window to the oldest. */
  ghost predicate WeekNumbersAscending(ts: seq<NoLogTask>)
  {
    forall i, j | 0 <= i < j < |ts| :: ts[i].week.number <= ts[j].week.number
  }

  /** Every reference task carries the key and the window of some first
      sighting. */
  lemma RefNoLogTaskOrigin(os: seq<Obs>, weeks: seq<Window>, worklogsOf: map<string, seq<RawWorklog>>, t: NoLogTask)
    requires ObsInRange(os, |weeks|)
    requires t in RefNoLogTasks(os, weeks, worklogsOf)
    ensures exists i | 0 <= i < |os| :: t.key == ObsKey(os[i]) && t.week.number == ObsWeek(os[i]) + 1
  {
    RefNoLogTasksMembers(os, weeks, worklogsOf);
    var i :| 0 <= i < |os| && t == NoLogTaskFor(os[i], weeks);
    assert t.key == ObsKey(os[i]);
  }

  /** The reference task list has distinct keys when the first sightings
      do. */
  lemma {:induction false} RefNoLogTasksDistinct(os: seq<Obs>, weeks: seq<Window>, worklogsOf: map<string, seq<RawWorklog>>)
    requires ObsInRange(os, |weeks|)
    requires DistinctKeys(os, ObsKey)
    ensures DistinctKeys(RefNoLogTasks(os, weeks, worklogsOf), TaskKey)
    decreases |os|
  {
    if |os| > 0 {
      var rest := os[1..];
      assert ObsInRange(rest, |weeks|);
      RefNoLogTasksDistinct(rest, weeks, worklogsOf);
      var tail := RefNoLogTasks(rest, weeks, worklogsOf);
      var ts := RefNoLogTasks(os, weeks, worklogsOf);
      if |WorklogsOf(worklogsOf, os[0].issue.key)| == 0 {
        assert ts == [NoLogTaskFor(os[0], weeks)] + tail;
        forall i, j | 0 <= i < j < |ts| ensures TaskKey(ts[i]) != TaskKey(ts[j]) {
          assert ts[j] == tail[j - 1] && ts[j] in tail;
          RefNoLogTaskOrigin(rest, weeks, worklogsOf, ts[j]);
          var m :| 0 <= m < |rest| && ts[j].key == ObsKey(rest[m]);
          assert rest[m] == os[m + 1];
          if i > 0 {
            assert ts[i] == tail[i - 1];
          }
        }
      } else {
        assert ts == tail;
      }
    }
  }

  /** The reference task list runs through the windows in the order the
      first sightings do. */
  lemma {:induction false} RefNoLogTasksAscending(os: seq<Obs>, weeks: seq<Window>, worklogsOf: map<string, seq<RawWorklog>>)
    requires ObsInRange(os, |weeks|)
    requires forall i, j | 0 <= i < j < |os| :: ObsWeek(os[i]) <= ObsWeek(os[j])
    ensures WeekNumbersAscending(RefNoLogTasks(os, weeks, worklogsOf))
    decreases |os|
  {
    if |os| > 0 {
      var rest := os[1..];
      assert ObsInRange(rest, |weeks|);
      RefNoLogTasksAscending(rest, weeks, worklogsOf);
      var tail := RefNoLogTasks(rest, weeks, worklogsOf);
      var ts := RefNoLogTasks(os, weeks, worklogsOf);
      if |WorklogsOf(worklogsOf, os[0].issue.key)| == 0 {
        assert ts == [NoLogTaskFor(os[0], weeks)] + tail;
        forall i, j | 0 <= i < j < |ts| ensures ts[i].week.number <= ts[j].week.number {
          assert ts[j] == tail[j - 1] && ts[j] in tail;
          if i > 0 {
            assert ts[i] == tail[i - 1];
          } else {
            RefNoLogTaskOrigin(rest, weeks, worklogsOf, ts[j]);
            var m :| 0 <= m < |rest| && ts[j].week.number == ObsWeek(rest[m]) + 1;
            assert rest[m] == os[m + 1];
          }
        }
      } else {
        assert ts == tail;
      }
    }
  }

  /** The collected task list is the reference one. */
  lemma CollectTasks(current: Instant, weeksCount: int, fetched: seq<seq<RawIssue>>,
      worklogsOf: map<string, seq<RawWorklog>>)
    requires |fetched| == |CalculateWorkingWeeks(current, weeksCount)|
    ensures ObsInRange(FirstObservations(fetched), |fetched|)
    ensures var r := CollectProjectData(current, weeksCount, fetched, worklogsOf);
      var weeks := CalculateWorkingWeeks(current, weeksCount);
      r.Ok? ==> r.value.tasksWithoutWorklog == RefNoLogTasks(FirstObservations(fetched), weeks, worklogsOf)
  {
    CollectProjectDataSpec(current, weeksCount, fetched, worklogsOf);
  }

  /** `tasks_without_worklog` holds one entry per key, running from the most
      recent window to the oldest. */
  lemma CollectNoLogTasksOrder(current: Instant, weeksCount: int, fetched: seq<seq<RawIssue>>,
      worklogsOf: map<string, seq<RawWorklog>>)
    requires |fetched| == |CalculateWorkingWeeks(current, weeksCount)|
    ensures var r := CollectProjectData(current, weeksCount, fetched, worklogsOf);
      r.Ok? ==> DistinctKeys(r.value.tasksWithoutWorklog, TaskKey) && WeekNumbersAscending(r.value.tasksWithoutWorklog)
  {
    var weeks := CalculateWorkingWeeks(current, weeksCount);
    var firsts := FirstObservations(fetched);
    var obs := Observations(fetched, 0);
    CollectTasks(current, weeksCount, fetched, worklogsOf);
    CollectIsFreshFold(current, weeksCount, fetched, worklogsOf);
    ObservationsAscending(fetched, 0);
    DedupFromAscending(obs, ObsKey, {}, ObsWeek);
    RefNoLogTasksDistinct(firsts, weeks, worklogsOf);
    RefNoLogTasksAscending(firsts, weeks, worklogsOf);
  }

  /** Every entry of `tasks_without_worklog` is an issue without worklogs,
      tagged with the first (most recent) window that returned it. */
  lemma CollectNoLogTasksTagged(current: Instant, weeksCount: int, fetched: seq<seq<RawIssue>>,
      worklogsOf: map<string, seq<RawWorklog>>)
    requires |fetched| == |CalculateWorkingWeeks(current, weeksCount)|
    ensures var r := CollectProjectData(current, weeksCount, fetched, worklogsOf);
      var weeks := CalculateWorkingWeeks(current, weeksCount);
      r.Ok? ==> forall t | t in r.value.tasksWithoutWorklog ::
        |WorklogsOf(worklogsOf, t.key)| == 0
        && exists w | 0 <= w < |weeks| :: FirstReturnedIn(fetched, t.key, w) && t.week == LabelOf(w, weeks[w])
  {
    var weeks := CalculateWorkingWeeks(current, weeksCount);
    var firsts := FirstObservations(fetched);
    var r := CollectProjectData(current, weeksCount, fetched, worklogsOf);
    CollectTasks(current, weeksCount, fetched, worklogsOf);
    if r.Ok? {
      RefNoLogTasksMembers(firsts, weeks, worklogsOf);
      FirstObservationsEarliest(fetched);
      forall t | t in r.value.tasksWithoutWorklog
        ensures |WorklogsOf(worklogsOf, t.key)| == 0
        ensures exists w | 0 <= w < |weeks| :: FirstReturnedIn(fetched, t.key, w) && t.week == LabelOf(w, weeks[w])
      {
        var i :| 0 <= i < |firsts| && t == NoLogTaskFor(firsts[i], weeks)
          && |WorklogsOf(worklogsOf, firsts[i].issue.key)| == 0;
        var w := firsts[i].week;
        assert FirstReturnedIn(fetched, t.key, w) && t.week == LabelOf(w, weeks[w]);
      }
    }
  }

  /** Every fetched issue without worklogs has an entry in
      `tasks_without_worklog`. */
  lemma CollectNoLogTasksComplete(current: Instant, weeksCount: int, fetched: seq<seq<RawIssue>>,
      worklogsOf: map<string, seq<RawWorklog>>)
    requires |fetched| == |CalculateWorkingWeeks(current, weeksCount)|
    ensures var r := CollectProjectData(current, weeksCount, fetched, worklogsOf);
      r.Ok? ==> forall k | k in FetchedKeys(fetched) && |WorklogsOf(worklogsOf, k)| == 0 ::
        exists t | t in r.value.tasksWithoutWorklog :: t.key == k
  {
    var weeks := CalculateWorkingWeeks(current, weeksCount);
    var firsts := FirstObservations(fetched);
    var r := CollectProjectData(current, weeksCount, fetched, worklogsOf);
    CollectTasks(current, weeksCount, fetched, worklogsOf);
    CollectIsFreshFold(current, weeksCount, fetched, worklogsOf);
    if r.Ok? {
      RefNoLogTasksMembers(firsts, weeks, worklogsOf);
      forall k | k in FetchedKeys(fetched) && |WorklogsOf(worklogsOf, k)| == 0
        ensures exists t | t in r.value.tasksWithoutWorklog :: t.key == k
      {
        assert k in KeysOf(firsts, ObsKey);
        var i :| 0 <= i < |firsts| && ObsKey(firsts[i]) == k;
        assert NoLogTaskFor(firsts[i], weeks) in r.value.tasksWithoutWorklog;
      }
    }
  }

  /** Every worklog group is keyed by a first sighting. */
  lemma {:induction false} RefWorklogsKeys(os: seq<Obs>, worklogsOf: map<string, seq<RawWorklog>>)
    requires AllWellFormed(os, worklogsOf)
    ensures KeysOf(RefWorklogs(os, worklogsOf), IssueLogsKey) <= KeysOf(os, ObsKey)
    decreases |os|
  {
    if |os| > 0 {
      var key := os[0].issue.key;
      var head := if |WorklogsOf(worklogsOf, key)| == 0 then [] else [IssueLogs(key, LogsOf(worklogsOf, key))];
      AllWellFormedTail(os, worklogsOf);
      RefWorklogsKeys(os[1..], worklogsOf);
      KeysOfCons(os, ObsKey);
      KeysOfAppend(head, RefWorklogs(os[1..], worklogsOf), IssueLogsKey);
    }
  }

  /** Sightings with distinct keys give one worklog group per key. */
  lemma {:induction false} RefWorklogsDistinct(os: seq<Obs>, worklogsOf: map<string, seq<RawWorklog>>)
    requires AllWellFormed(os, worklogsOf)
    requires DistinctKeys(os, ObsKey)
    ensures DistinctKeys(RefWorklogs(os, worklogsOf), IssueLogsKey)
    decreases |os|
  {
    if |os| > 0 {
      var key := os[0].issue.key;
      var head := if |WorklogsOf(worklogsOf, key)| == 0 then [] else [IssueLogs(key, LogsOf(worklogsOf, key))];
      var tail := RefWorklogs(os[1..], worklogsOf);
      AllWellFormedTail(os, worklogsOf);
      DistinctKeysTail(os, ObsKey);
      RefWorklogsDistinct(os[1..], worklogsOf);
      RefWorklogsKeys(os[1..], worklogsOf);
      assert KeysOf(head, IssueLogsKey) <= {key};
      DistinctKeysAppend(head, tail, IssueLogsKey);
    }
  }

  /** After a successful collection, `all_worklogs` has one entry per issue,
      and every issue with worklogs is among `all_issues`. */
  lemma CollectWorklogsKeys(current: Instant, weeksCount: int, fetched: seq<seq<RawIssue>>,
      worklogsOf: map<string, seq<RawWorklog>>)
    requires |fetched| == |CalculateWorkingWeeks(current, weeksCount)|
    ensures var r := CollectProjectData(current, weeksCount, fetched, worklogsOf);
      r.Ok? ==>
        && DistinctKeys(r.value.allWorklogs, IssueLogsKey)
        && forall i | 0 <= i < |r.value.allWorklogs| :: r.value.allWorklogs[i].key in r.value.allIssues
  {
    var r := CollectProjectData(current, weeksCount, fetched, worklogsOf);
    var firsts := FirstObservations(fetched);
    CollectProjectDataSpec(current, weeksCount, fetched, worklogsOf);
    if r.Ok? {
      DedupByKeys(Observations(fetched, 0), ObsKey);
      ObservationsKeys(fetched);
      RefWorklogsKeys(firsts, worklogsOf);
      RefWorklogsDistinct(firsts, worklogsOf);
      forall i | 0 <= i < |r.value.allWorklogs| ensures r.value.allWorklogs[i].key in r.value.allIssues {
        assert IssueLogsKey(r.value.allWorklogs[i]) in KeysOf(r.value.allWorklogs, IssueLogsKey);
      }
    }
  }
}
