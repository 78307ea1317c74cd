/** The filter-and-sum loop of `get_current_week_worklogs`: of the worklogs
    of the issues the tracker returned, keep those dated inside the current
    Monday-to-Sunday week and written by the given user, and add up their
    hours. */
module CurrentWeek {
  import opened Base
  import opened Windows
  import opened Collect

  /** One entry of the returned `worklogs` list. */
  datatype Entry = Entry(issueKey: string, issueSummary: string, date: int, hours: real,
                         comment: Option<string>)

  datatype CurrentWeekReport = CurrentWeekReport(totalHours: real, worklogs: seq<Entry>, week: Window)

  function EntryOf(issue: RawIssue, w: RawWorklog, day: int): Entry
  {
    Entry(issue.key, issue.summary, day, SecondsToHours(w.timeSpentSeconds), w.comment)
  }

  function HoursOf(es: seq<Entry>): (hs: seq<real>)
    ensures |hs| == |es|
    ensures forall i | 0 <= i < |es| :: hs[i] == es[i].hours
  {
    if |es| == 0 then [] else HoursOf(es[..|es| - 1]) + [es[|es| - 1].hours]
  }

  /** What one worklog contributes. Its date must parse; the author is only
      looked at when the date is inside the week (the `and` short-circuits),
      and a missing author there fails the whole query. */
  function Step(week: Window, username: string, issue: RawIssue, w: RawWorklog): Result<seq<Entry>>
  {
    if w.startedDay.None? then Err(MalformedWorklogDate(issue.key))
    else if !week.ContainsDay(w.startedDay.value) then Ok([])
    else if w.author.None? then Err(MissingWorklogAuthor(issue.key))
    else if w.author.value.name == username then Ok([EntryOf(issue, w, w.startedDay.value)])
    else Ok([])
  }

  /** The entries one issue contributes, processing its worklogs in order and
      stopping at the first failure. */
  function IssueMatches(week: Window, username: string, issue: RawIssue, ws: seq<RawWorklog>): Result<seq<Entry>>
  {
    if |ws| == 0 then Ok([])
    else match IssueMatches(week, username, issue, ws[..|ws| - 1])
      case Err(e) => Err(e)
      case Ok(es) =>
        match Step(week, username, issue, ws[|ws| - 1])
        case Err(e) => Err(e)
        case Ok(more) => Ok(es + more)
  }

  /** The entries all issues contribute, issue by issue. */
  function AllMatches(week: Window, username: string, issues: seq<RawIssue>,
                      worklogsOf: map<string, seq<RawWorklog>>): Result<seq<Entry>>
  {
    if |issues| == 0 then Ok([])
    else match AllMatches(week, username, issues[..|issues| - 1], worklogsOf)
      case Err(e) => Err(e)
      case Ok(es) =>
        var issue := issues[|issues| - 1];
        match IssueMatches(week, username, issue, WorklogsOf(worklogsOf, issue.key))
        case Err(e) => Err(e)
        case Ok(more) => Ok(es + more)
  }

  /** The current week: the window `calculate_working_weeks` would put first. */
  function CurrentWindow(current: Instant): (w: Window)
    ensures w == CalculateWorkingWeeks(current, 1)[0]
    ensures IsMondayMidnight(w.start) && w.end == w.start + WeekSpan
    ensures w.start <= current <= w.end
  {
    WeekWindow(current, 0)
  }

  /** The inner loop over one issue's worklogs: the entries it keeps and
      the hours it adds. */
  method ScanWorklogs(week: Window, username: string, issue: RawIssue, ws: seq<RawWorklog>)
    returns (r: Result<seq<Entry>>, hours: real)
    ensures r == IssueMatches(week, username, issue, ws)
    ensures r.Ok? ==> hours == Sum(HoursOf(r.value))
  {
    var data: seq<Entry> := [];
    hours := 0.0;
    var j := 0;
    while j < |ws|
      invariant 0 <= j <= |ws|
      invariant IssueMatches(week, username, issue, ws[..j]) == Ok(data)
      invariant hours == Sum(HoursOf(data))
    {
      var w := ws[j];
      assert ws[..j + 1][..j] == ws[..j];
      assert ws[..j + 1][j] == w;
      assert data + [] == data;
      if w.startedDay.None? {
        r := Err(MalformedWorklogDate(issue.key));
        IssueFailureStops(week, username, issue, ws, j + 1);
        return;
      }
      var day := w.startedDay.value;
      if week.ContainsDay(day) {
        if w.author.None? {
          r := Err(MissingWorklogAuthor(issue.key));
          IssueFailureStops(week, username, issue, ws, j + 1);
          return;
        }
        if w.author.value.name == username {
          var e := EntryOf(issue, w, day);
          hours := hours + e.hours;
          SumHoursSnoc(data, e);
          data := data + [e];
        }
      }
      j := j + 1;
    }
    assert ws[..j] == ws;
    r := Ok(data);
  }

  /** `get_current_week_worklogs` over the issues and worklogs the tracker
      returned. The result lists exactly the entries of the reference
      filter, and `total_hours` is the sum of their hours. */
  method GetCurrentWeekWorklogs(current: Instant, username: string, issues: seq<RawIssue>,
                                worklogsOf: map<string, seq<RawWorklog>>)
    returns (r: Result<CurrentWeekReport>)
    ensures r.Ok? <==> AllMatches(CurrentWindow(current), username, issues, worklogsOf).Ok?
    ensures r.Err? ==> r.error == AllMatches(CurrentWindow(current), username, issues, worklogsOf).error
    ensures r.Ok? ==>
      && r.value.worklogs == AllMatches(CurrentWindow(current), username, issues, worklogsOf).value
      && r.value.totalHours == Sum(HoursOf(r.value.worklogs))
      && r.value.week == CurrentWindow(current)
  {
    var week := CurrentWindow(current);
    var total := 0.0;
    var data: seq<Entry> := [];
    var i := 0;
    while i < |issues|
      invariant 0 <= i <= |issues|
      invariant AllMatches(week, username, issues[..i], worklogsOf) == Ok(data)
      invariant total == Sum(HoursOf(data))
    {
      var issue := issues[i];
      var more, hours := ScanWorklogs(week, username, issue, WorklogsOf(worklogsOf, issue.key));
      AllMatchesStep(week, username, issues, worklogsOf, i);
      if more.Err? {
        r := Err(more.error);
        AllFailureStops(week, username, issues, worklogsOf, i + 1);
        return;
      }
      SumHoursAppend(data, more.value);
      total := total + hours;
      data := data + more.value;
      i := i + 1;
    }
    assert issues[..i] == issues;
    r := Ok(CurrentWeekReport(total, data, week));
  }

  /** One more issue extends the filter by that issue's entries. */
  lemma AllMatchesStep(week: Window, username: string, issues: seq<RawIssue>,
                       worklogsOf: map<string, seq<RawWorklog>>, i: nat)
    requires i < |issues|
    ensures var prefix := AllMatches(week, username, issues[..i], worklogsOf);
      var one := IssueMatches(week, username, issues[i], WorklogsOf(worklogsOf, issues[i].key));
      AllMatches(week, username, issues[..i + 1], worklogsOf)
        == if prefix.Err? then prefix else if one.Err? then one else Ok(prefix.value + one.value)
  {
    assert issues[..i + 1][..i] == issues[..i];
  }

  lemma SumHoursAppend(a: seq<Entry>, b: seq<Entry>)
    ensures Sum(HoursOf(a + b)) == Sum(HoursOf(a)) + Sum(HoursOf(b))
  {
    assert HoursOf(a + b) == HoursOf(a) + HoursOf(b);
    SumAppend(HoursOf(a), HoursOf(b));
  }

  lemma SumHoursSnoc(es: seq<Entry>, e: Entry)
    ensures Sum(HoursOf(es + [e])) == Sum(HoursOf(es)) + e.hours
  {
    assert (es + [e])[..|es|] == es;
    assert HoursOf(es + [e]) == HoursOf(es) + [e.hours];
    assert (HoursOf(es) + [e.hours])[..|es|] == HoursOf(es);
  }

  /** Once a prefix of an issue's worklogs fails, the whole issue fails with
      the same error. */
  lemma {:induction false} IssueFailureStops(week: Window, username: string, issue: RawIssue,
      ws: seq<RawWorklog>, n: nat)
    requires n <= |ws|
    requires IssueMatches(week, username, issue, ws[..n]).Err?
    ensures IssueMatches(week, username, issue, ws) == IssueMatches(week, username, issue, ws[..n])
    decreases |ws| - n
  {
    if n < |ws| {
      assert ws[..n + 1][..n] == ws[..n];
      IssueFailureStops(week, username, issue, ws, n + 1);
    } else {
      assert ws[..n] == ws;
    }
  }

  /** Once a prefix of the issues fails, the whole query fails with the same
      error. */
  lemma {:induction false} AllFailureStops(week: Window, username: string, issues: seq<RawIssue>,
      worklogsOf: map<string, seq<RawWorklog>>, n: nat)
    requires n <= |issues|
    requires AllMatches(week, username, issues[..n], worklogsOf).Err?
    ensures AllMatches(week, username, issues, worklogsOf) == AllMatches(week, username, issues[..n], worklogsOf)
    decreases |issues| - n
  {
    if n < |issues| {
      assert issues[..n + 1][..n] == issues[..n];
      AllFailureStops(week, username, issues, worklogsOf, n + 1);
    } else {
      assert issues[..n] == issues;
    }
  }

  /** The entries of one issue are exactly its worklogs dated inside the
      week and written by `username`. */
  lemma {:induction false} IssueMatchesMembers(week: Window, username: string, issue: RawIssue, ws: seq<RawWorklog>)
    requires IssueMatches(week, username, issue, ws).Ok?
    ensures forall e | e in IssueMatches(week, username, issue, ws).value ::
      exists j | 0 <= j < |ws| :: ws[j].startedDay.Some? && ws[j].author.Some?
        && week.ContainsDay(ws[j].startedDay.value) && ws[j].author.value.name == username
        && e == EntryOf(issue, ws[j], ws[j].startedDay.value)
    ensures forall j | 0 <= j < |ws| && ws[j].startedDay.Some? && ws[j].author.Some?
        && week.ContainsDay(ws[j].startedDay.value) && ws[j].author.value.name == username ::
      EntryOf(issue, ws[j], ws[j].startedDay.value) in IssueMatches(week, username, issue, ws).value
    decreases |ws|
  {
    if |ws| > 0 {
      var init := ws[..|ws| - 1];
      var last := ws[|ws| - 1];
      IssueMatchesMembers(week, username, issue, init);
      var es := IssueMatches(week, username, issue, init).value;
      var all := IssueMatches(week, username, issue, ws).value;
      forall e | e in all
        ensures exists j | 0 <= j < |ws| ::
          (ws[j].startedDay.Some? && ws[j].author.Some?
           && week.ContainsDay(ws[j].startedDay.value) && ws[j].author.value.name == username
           && e == EntryOf(issue, ws[j], ws[j].startedDay.value))
      {
        if e in es {
          var j :| 0 <= j < |init| && init[j].startedDay.Some? && init[j].author.Some?
            && week.ContainsDay(init[j].startedDay.value) && init[j].author.value.name == username
            && e == EntryOf(issue, init[j], init[j].startedDay.value);
          assert ws[j] == init[j];
        } else {
          assert e == EntryOf(issue, last, last.startedDay.value);
        }
      }
    }
  }

  /** Every returned entry is dated inside the current week and comes from a
      worklog written by `username`; every such worklog of a returned issue
      is returned. */
  lemma {:induction false} AllMatchesMembers(week: Window, username: string, issues: seq<RawIssue>,
      worklogsOf: map<string, seq<RawWorklog>>)
    requires AllMatches(week, username, issues, worklogsOf).Ok?
    ensures forall e | e in AllMatches(week, username, issues, worklogsOf).value ::
      week.ContainsDay(e.date)
      && exists i, j | 0 <= i < |issues| && 0 <= j < |WorklogsOf(worklogsOf, issues[i].key)| ::
        var w := WorklogsOf(worklogsOf, issues[i].key)[j];
        w.startedDay.Some? && w.author.Some? && w.author.value.name == username
        && e == EntryOf(issues[i], w, w.startedDay.value)
    decreases |issues|
  {
    if |issues| > 0 {
      var init := issues[..|issues| - 1];
      var issue := issues[|issues| - 1];
      var ws := WorklogsOf(worklogsOf, issue.key);
      AllMatchesMembers(week, username, init, worklogsOf);
      IssueMatchesMembers(week, username, issue, ws);
      var es := AllMatches(week, username, init, worklogsOf).value;
      forall e | e in AllMatches(week, username, issues, worklogsOf).value
        ensures week.ContainsDay(e.date)
        ensures exists i, j | 0 <= i < |issues| && 0 <= j < |WorklogsOf(worklogsOf, issues[i].key)| ::
          var w := WorklogsOf(worklogsOf, issues[i].key)[j];
          w.startedDay.Some? && w.author.Some? && w.author.value.name == username
          && e == EntryOf(issues[i], w, w.startedDay.value)
      {
        if e in es {
          var i, j :| 0 <= i < |init| && 0 <= j < |WorklogsOf(worklogsOf, init[i].key)|
            && var w := WorklogsOf(worklogsOf, init[i].key)[j];
               w.startedDay.Some? && w.author.Some? && w.author.value.name == username
               && e == EntryOf(init[i], w, w.startedDay.value);
          assert issues[i] == init[i];
        } else {
          var j :| 0 <= j < |ws| && ws[j].startedDay.Some? && ws[j].author.Some?
            && week.ContainsDay(ws[j].startedDay.value) && ws[j].author.value.name == username
            && e == EntryOf(issue, ws[j], ws[j].startedDay.value);
          assert issues[|issues| - 1] == issue;
        }
      }
    }
  }

  /** `get_current_week_worklogs` succeeds exactly when every worklog date
      parses and every worklog dated inside the week has an author. */
  lemma {:induction false} IssueMatchesFails(week: Window, username: string, issue: RawIssue, ws: seq<RawWorklog>)
    ensures IssueMatches(week, username, issue, ws).Ok? <==>
      forall j | 0 <= j < |ws| ::
        ws[j].startedDay.Some? && (week.ContainsDay(ws[j].startedDay.value) ==> ws[j].author.Some?)
    decreases |ws|
  {
    if |ws| > 0 {
      var init := ws[..|ws| - 1];
      IssueMatchesFails(week, username, issue, init);
      assert forall j | 0 <= j < |init| :: init[j] == ws[j];
    }
  }
}
