/** The chat bot's pure logic: the first-wins list of tasks without
    worklogs and its grouping by assignee, the role checks on the stored Jira
    groups, the settings getters, and the settings changes of `/weeks` and
    `/logout`. Messages, buttons and sending are not modelled. */
module Bot {
  import opened Base
  import opened Windows
  import opened Records
  import opened Dedup
  import opened Decimal
  import opened Collect
  import opened Analytics
  import opened Reports
  import opened Values
  import opened Roles
  import opened Storage

  // -----------------------------------------------------------------------
  // Tasks without worklogs

  /** `_get_unique_no_worklog_tasks`: the `tasks_without_worklog` list of
      every value of the statistics dict that has one (the weeks, then
      `_full_data`), scanned in order, a task kept only when its key was not
      seen before. The `no_worklog_report` branch builds the same list
      inline. */
  function UniqueNoWorklogTasks(stats: Stats): seq<NoLogTask>
  {
    DedupBy(NoWorklogReport(stats.weekly) + stats.full.tasksWithoutWorklog, TaskKey)
  }

  /** The tasks the bot scans, in order. */
  function ScannedTasks(stats: Stats): seq<NoLogTask>
  {
    NoWorklogReport(stats.weekly) + stats.full.tasksWithoutWorklog
  }

  /** The list has pairwise distinct keys and every scanned key; it keeps
      the first task of each key, in scanning order (an order-preserving
      subsequence of the scan); and deduplicating it again changes
      nothing. */
  lemma UniqueTasksSpec(stats: Stats)
    ensures DistinctKeys(UniqueNoWorklogTasks(stats), TaskKey)
    ensures KeysOf(UniqueNoWorklogTasks(stats), TaskKey) == KeysOf(ScannedTasks(stats), TaskKey)
    ensures UniqueNoWorklogTasks(stats) == FirstOccurrences(ScannedTasks(stats), TaskKey)
    ensures forall t | t in UniqueNoWorklogTasks(stats) :: t in ScannedTasks(stats)
    ensures DedupBy(UniqueNoWorklogTasks(stats), TaskKey) == UniqueNoWorklogTasks(stats)
  {
    var s := ScannedTasks(stats);
    DedupByKeys(s, TaskKey);
    DedupIsFirstOccurrences(s, TaskKey);
    DedupFromSubset(s, TaskKey, {});
    DedupIdempotent(s, TaskKey);
  }

  /** On an analysis, the list is the collected `tasks_without_worklog`
      itself: scanning `_full_data` after the weeks adds nothing. */
  lemma AnalyzedUniqueTasks(current: Instant, weeksCount: int, fetched: seq<seq<RawIssue>>,
      worklogsOf: map<string, seq<RawWorklog>>)
    requires |fetched| == |CalculateWorkingWeeks(current, weeksCount)|
    ensures var r := AnalyzeProject(current, weeksCount, fetched, worklogsOf);
      r.Ok? ==>
        && UniqueNoWorklogTasks(r.value) == DedupBy(NoWorklogReport(r.value.weekly), TaskKey)
        && UniqueNoWorklogTasks(r.value) == r.value.full.tasksWithoutWorklog
  {
    var r := AnalyzeProject(current, weeksCount, fetched, worklogsOf);
    if r.Ok? {
      var ts := r.value.full.tasksWithoutWorklog;
      AnalyzedNoWorklogReport(current, weeksCount, fetched, worklogsOf);
      DedupAppendCovered(ts, ts, TaskKey);
      DedupFromDistinct(ts, TaskKey, {});
    }
  }

  // -----------------------------------------------------------------------
  // Grouping by assignee

  /** An entry of the insertion-ordered dict `assignees`. */
  datatype Group = Group(assignee: string, tasks: seq<NoLogTask>)

  function Assignee(t: NoLogTask): string { t.assignee }

  function GroupKey(g: Group): string { g.assignee }

  /** One step of the grouping loop: append to the assignee's group, or open
      a new group at the end. */
  function AddToGroups(gs: seq<Group>, t: NoLogTask): seq<Group>
  {
    if |gs| == 0 then [Group(t.assignee, [t])]
    else if gs[0].assignee == t.assignee then [Group(gs[0].assignee, gs[0].tasks + [t])] + gs[1..]
    else [gs[0]] + AddToGroups(gs[1..], t)
  }

  /** The grouping loop of the `no_worklog_report` branch. Every task record
      has an `assignee`, so the `'Не назначен'` fallback of `task.get` is
      never taken here (extraction already puts it in). */
  function GroupByAssignee(tasks: seq<NoLogTask>): seq<Group>
  {
    if |tasks| == 0 then [] else AddToGroups(GroupByAssignee(tasks[..|tasks| - 1]), tasks[|tasks| - 1])
  }

  /** The tasks assigned to `a`, in order. */
  function AssignedTo(tasks: seq<NoLogTask>, a: string): (r: seq<NoLogTask>)
    ensures forall t :: t in r <==> t in tasks && t.assignee == a
  {
    if |tasks| == 0 then []
    else
      var last := tasks[|tasks| - 1];
      var init := tasks[..|tasks| - 1];
      assert forall t :: t in tasks <==> t in init || t == last by {
        assert tasks == init + [last];
      }
      AssignedTo(init, a) + (if last.assignee == a then [last] else [])
  }

  /** Reference grouping: a group per assignee in order of first appearance,
      holding that assignee's tasks in order. */
  function GroupsRef(tasks: seq<NoLogTask>): seq<Group>
  {
    var firsts := FirstOccurrences(tasks, Assignee);
    seq(|firsts|, i requires 0 <= i < |firsts| => Group(firsts[i].assignee, AssignedTo(tasks, firsts[i].assignee)))
  }

  /** The number of tasks over all groups: the sum of the `len(tasks)` the
      message prints. */
  function GroupedCount(gs: seq<Group>): nat
  {
    if |gs| == 0 then 0 else |gs[0].tasks| + GroupedCount(gs[1..])
  }

  lemma {:induction false} AddToGroupsCount(gs: seq<Group>, t: NoLogTask)
    ensures GroupedCount(AddToGroups(gs, t)) == GroupedCount(gs) + 1
    decreases |gs|
  {
    if |gs| > 0 && gs[0].assignee != t.assignee {
      AddToGroupsCount(gs[1..], t);
      assert ([gs[0]] + AddToGroups(gs[1..], t))[1..] == AddToGroups(gs[1..], t);
    }
  }

  /** The group sizes add up to the number of tasks grouped. */
  lemma {:induction false} GroupedCountAll(tasks: seq<NoLogTask>)
    ensures GroupedCount(GroupByAssignee(tasks)) == |tasks|
    decreases |tasks|
  {
    if |tasks| > 0 {
      GroupedCountAll(tasks[..|tasks| - 1]);
      AddToGroupsCount(GroupByAssignee(tasks[..|tasks| - 1]), tasks[|tasks| - 1]);
    }
  }

  lemma {:induction false} AddToGroupsHit(gs: seq<Group>, t: NoLogTask, i: nat)
    requires i < |gs| && gs[i].assignee == t.assignee
    requires DistinctKeys(gs, GroupKey)
    ensures AddToGroups(gs, t) == gs[i := Group(gs[i].assignee, gs[i].tasks + [t])]
    decreases |gs|
  {
    if i > 0 {
      assert GroupKey(gs[0]) != GroupKey(gs[i]);
      DistinctKeysTail(gs, GroupKey);
      AddToGroupsHit(gs[1..], t, i - 1);
    }
  }

  lemma {:induction false} AddToGroupsMiss(gs: seq<Group>, t: NoLogTask)
    requires forall i | 0 <= i < |gs| :: gs[i].assignee != t.assignee
    ensures AddToGroups(gs, t) == gs + [Group(t.assignee, [t])]
    decreases |gs|
  {
    if |gs| > 0 {
      AddToGroupsMiss(gs[1..], t);
    }
  }

  /** The assignees of the first occurrences are distinct and are all the
      assignees. */
  lemma FirstAssignees(tasks: seq<NoLogTask>)
    ensures DistinctKeys(FirstOccurrences(tasks, Assignee), Assignee)
    ensures KeysOf(FirstOccurrences(tasks, Assignee), Assignee) == KeysOf(tasks, Assignee)
  {
    DedupByKeys(tasks, Assignee);
    DedupIsFirstOccurrences(tasks, Assignee);
  }

  lemma RefStepHit(tasks: seq<NoLogTask>)
    requires |tasks| > 0
    requires Assignee(tasks[|tasks| - 1]) in KeysOf(tasks[..|tasks| - 1], Assignee)
    ensures AddToGroups(GroupsRef(tasks[..|tasks| - 1]), tasks[|tasks| - 1]) == GroupsRef(tasks)
  {
    var init, last := tasks[..|tasks| - 1], tasks[|tasks| - 1];
    var f := FirstOccurrences(init, Assignee);
    var gs := GroupsRef(init);
    FirstAssignees(init);
    assert FirstOccurrences(tasks, Assignee) == f;
    var i :| 0 <= i < |f| && Assignee(f[i]) == last.assignee;
    GroupsRefDistinct(init);
    AddToGroupsHit(gs, last, i);
    var r := GroupsRef(tasks);
    var want := gs[i := Group(gs[i].assignee, gs[i].tasks + [last])];
    assert |r| == |want|;
    forall j | 0 <= j < |r| ensures r[j] == want[j] {
      AssignedToSnoc(tasks, f[j].assignee);
      if j < i {
        assert Assignee(f[j]) != Assignee(f[i]);
      } else if j > i {
        assert Assignee(f[i]) != Assignee(f[j]);
      }
    }
  }

  /** The reference groups have one assignee each. */
  lemma GroupsRefDistinct(tasks: seq<NoLogTask>)
    ensures DistinctKeys(GroupsRef(tasks), GroupKey)
  {
    var f := FirstOccurrences(tasks, Assignee);
    var gs := GroupsRef(tasks);
    FirstAssignees(tasks);
    forall p, q | 0 <= p < q < |gs| ensures GroupKey(gs[p]) != GroupKey(gs[q]) {
      assert Assignee(f[p]) != Assignee(f[q]);
    }
  }

  /** One more task joins its assignee's list and no other. */
  lemma AssignedToSnoc(tasks: seq<NoLogTask>, a: string)
    requires |tasks| > 0
    ensures AssignedTo(tasks, a) == if tasks[|tasks| - 1].assignee == a
      then AssignedTo(tasks[..|tasks| - 1], a) + [tasks[|tasks| - 1]]
      else AssignedTo(tasks[..|tasks| - 1], a)
  {
    assert AssignedTo(tasks[..|tasks| - 1], a) + [] == AssignedTo(tasks[..|tasks| - 1], a);
  }

  lemma NothingAssigned(tasks: seq<NoLogTask>, a: string)
    requires forall t | t in tasks :: t.assignee != a
    ensures AssignedTo(tasks, a) == []
  {
  }

  lemma RefStepMiss(tasks: seq<NoLogTask>)
    requires |tasks| > 0
    requires Assignee(tasks[|tasks| - 1]) !in KeysOf(tasks[..|tasks| - 1], Assignee)
    ensures AddToGroups(GroupsRef(tasks[..|tasks| - 1]), tasks[|tasks| - 1]) == GroupsRef(tasks)
  {
    var init, last := tasks[..|tasks| - 1], tasks[|tasks| - 1];
    var f := FirstOccurrences(init, Assignee);
    var gs := GroupsRef(init);
    FirstAssignees(init);
    assert FirstOccurrences(tasks, Assignee) == f + [last];
    forall i | 0 <= i < |gs| ensures gs[i].assignee != last.assignee {
      assert Assignee(f[i]) in KeysOf(f, Assignee);
    }
    AddToGroupsMiss(gs, last);
    forall t | t in init ensures t.assignee != last.assignee {
      var k :| 0 <= k < |init| && init[k] == t;
      assert Assignee(init[k]) in KeysOf(init, Assignee);
    }
    NothingAssigned(init, last.assignee);
    var r := GroupsRef(tasks);
    var want := gs + [Group(last.assignee, [last])];
    assert |r| == |want|;
    forall j | 0 <= j < |r| ensures r[j] == want[j] {
      if j < |gs| {
        assert Assignee(f[j]) in KeysOf(f, Assignee);
        AssignedToSnoc(tasks, f[j].assignee);
      } else {
        AssignedToSnoc(tasks, last.assignee);
      }
    }
  }

  /** The grouping loop builds the reference grouping. */
  lemma {:induction false} GroupByAssigneeIsRef(tasks: seq<NoLogTask>)
    ensures GroupByAssignee(tasks) == GroupsRef(tasks)
    decreases |tasks|
  {
    if |tasks| > 0 {
      GroupByAssigneeIsRef(tasks[..|tasks| - 1]);
      if Assignee(tasks[|tasks| - 1]) in KeysOf(tasks[..|tasks| - 1], Assignee) {
        RefStepHit(tasks);
      } else {
        RefStepMiss(tasks);
      }
    } else {
      assert FirstOccurrences(tasks, Assignee) == [];
    }
  }

  /** Grouping by assignee gives one group per assignee, each holding exactly
      that assignee's tasks in order; every task is in its assignee's group
      and in no other; and the group sizes add up to the number of tasks. */
  lemma GroupByAssigneeSpec(tasks: seq<NoLogTask>)
    ensures var gs := GroupByAssignee(tasks);
      && DistinctKeys(gs, GroupKey)
      && (forall i | 0 <= i < |gs| :: gs[i].tasks == AssignedTo(tasks, gs[i].assignee) && |gs[i].tasks| > 0)
      && (forall t | t in tasks :: exists i | 0 <= i < |gs| :: gs[i].assignee == t.assignee)
      && (forall t, i | t in tasks && 0 <= i < |gs| :: t in gs[i].tasks <==> gs[i].assignee == t.assignee)
      && GroupedCount(gs) == |tasks|
  {
    GroupByAssigneeIsRef(tasks);
    GroupedCountAll(tasks);
    GroupsRefDistinct(tasks);
    GroupsRefNonEmpty(tasks);
    GroupsRefCovers(tasks);
  }

  /** Every reference group holds at least its first task. */
  lemma GroupsRefNonEmpty(tasks: seq<NoLogTask>)
    ensures forall i | 0 <= i < |GroupsRef(tasks)| :: |GroupsRef(tasks)[i].tasks| > 0
  {
    var gs := GroupsRef(tasks);
    var f := FirstOccurrences(tasks, Assignee);
    DedupIsFirstOccurrences(tasks, Assignee);
    DedupFromSubset(tasks, Assignee, {});
    forall i | 0 <= i < |gs| ensures |gs[i].tasks| > 0 {
      assert f[i] in tasks;
      assert f[i] in gs[i].tasks;
    }
  }

  /** Every task's assignee has a reference group. */
  lemma GroupsRefCovers(tasks: seq<NoLogTask>)
    ensures forall t | t in tasks :: exists i | 0 <= i < |GroupsRef(tasks)| :: GroupsRef(tasks)[i].assignee == t.assignee
  {
    var gs := GroupsRef(tasks);
    var f := FirstOccurrences(tasks, Assignee);
    FirstAssignees(tasks);
    forall t | t in tasks ensures exists i | 0 <= i < |gs| :: gs[i].assignee == t.assignee {
      var k :| 0 <= k < |tasks| && tasks[k] == t;
      assert Assignee(tasks[k]) in KeysOf(f, Assignee);
      var i :| 0 <= i < |f| && Assignee(f[i]) == t.assignee;
      assert gs[i].assignee == t.assignee;
    }
  }

  // -----------------------------------------------------------------------
  // Settings getters

  /** `settings[uid][key]` when both lookups succeed. */
  function SettingOf(settings: Settings, uid: int, key: string): Option<Value>
  {
    if uid in settings && key in settings[uid] then Some(settings[uid][key]) else None
  }

  /** `_get_user_token`: the stored token, or `None`. */
  function UserToken(settings: Settings, uid: int): Value
  {
    match SettingOf(settings, uid, "token")
    case Some(v) => v
    case None => VNone
  }

  /** `_get_user_project`: the stored project, else the configured default. */
  function GetUserProject(settings: Settings, uid: int, default: Value): Value
  {
    match SettingOf(settings, uid, "project")
    case Some(v) => v
    case None => default
  }

  /** `_get_user_weeks`: the stored week count, else the configured default. */
  function GetUserWeeks(settings: Settings, uid: int, default: Value): Value
  {
    match SettingOf(settings, uid, "weeks")
    case Some(v) => v
    case None => default
  }

  /** A stored setting always wins over the default, and the default is used
      exactly when nothing is stored; setting the key through
      `set_user_setting` is then read back. */
  lemma GettersSpec(settings: Settings, uid: int, default: Value, v: Value)
    ensures !(uid in settings && "project" in settings[uid]) ==> GetUserProject(settings, uid, default) == default
    ensures uid in settings && "project" in settings[uid] ==>
      GetUserProject(settings, uid, default) == settings[uid]["project"]
    ensures !(uid in settings && "weeks" in settings[uid]) ==> GetUserWeeks(settings, uid, default) == default
    ensures uid in settings && "weeks" in settings[uid] ==>
      GetUserWeeks(settings, uid, default) == settings[uid]["weeks"]
    ensures GetUserProject(SetUserSetting(settings, uid, "project", v), uid, default) == v
    ensures GetUserWeeks(SetUserSetting(settings, uid, "weeks", v), uid, default) == v
  {
  }

  // -----------------------------------------------------------------------
  // Role checks on the stored groups

  /** `any(group.lower() in names for group in items)` over list items:
      the first string that lowers into `names` stops the scan with true; an
      item that is not a string before that raises (`None`). */
  function AnyLowerInItems(items: seq<Value>, names: seq<string>): Option<bool>
  {
    if |items| == 0 then Some(false)
    else
      match items[0]
      case VStr(g) => if Lower(g) in names then Some(true) else AnyLowerInItems(items[1..], names)
      case _ => None
  }

  /** The strings of a list whose items are all strings. */
  function ItemStrings(items: seq<Value>): seq<string>
    requires forall i | 0 <= i < |items| :: items[i].VStr?
  {
    seq(|items|, i requires 0 <= i < |items| => items[i].s)
  }

  /** The same check over whatever is stored as `jira_groups`: a list is
      scanned item by item, a string character by character, a dict by its
      keys, and anything else is not iterable (`None`, the `TypeError`). */
  function AnyGroupIn(groups: Value, names: seq<string>): Option<bool>
  {
    match groups
    case VList(items) => AnyLowerInItems(items, names)
    case VStr(s) => Some(AnyLowerIn(seq(|s|, i requires 0 <= i < |s| => [s[i]]), names))
    case VDict(entries) => Some(AnyLowerIn(seq(|entries|, i requires 0 <= i < |entries| => entries[i].0), names))
    case _ => None
  }

  /** `_is_admin`; `None` when the check raises. */
  function IsAdmin(settings: Settings, uid: int): Option<bool>
  {
    match SettingOf(settings, uid, "jira_groups")
    case None => Some(false)
    case Some(groups) => AnyGroupIn(groups, AdminGroups)
  }

  /** `_is_power_user`; `None` when the check raises. */
  function IsPowerUser(settings: Settings, uid: int): Option<bool>
  {
    match SettingOf(settings, uid, "jira_groups")
    case None => Some(false)
    case Some(groups) => AnyGroupIn(groups, PowerUserGroups)
  }

  /** Over a list of strings the item scan is the plain group check. */
  lemma {:induction false} AnyLowerInStrings(items: seq<Value>, names: seq<string>)
    requires forall i | 0 <= i < |items| :: items[i].VStr?
    ensures AnyLowerInItems(items, names) == Some(AnyLowerIn(ItemStrings(items), names))
    decreases |items|
  {
    if |items| > 0 {
      AnyLowerInStrings(items[1..], names);
      assert ItemStrings(items)[1..] == ItemStrings(items[1..]);
    }
  }

  /** The scan raises exactly when a non-string item comes before any
      matching group. */
  lemma {:induction false} AnyLowerInItemsRaises(items: seq<Value>, names: seq<string>)
    ensures AnyLowerInItems(items, names).None? <==>
      exists i | 0 <= i < |items| :: !items[i].VStr? &&
        forall j | 0 <= j < i :: items[j].VStr? && Lower(items[j].s) !in names
    decreases |items|
  {
    if |items| > 0 {
      var rest := items[1..];
      AnyLowerInItemsRaises(rest, names);
      if items[0].VStr? && Lower(items[0].s) !in names {
        if exists i | 0 <= i < |rest| :: !rest[i].VStr? &&
            forall j | 0 <= j < i :: rest[j].VStr? && Lower(rest[j].s) !in names {
          var i :| 0 <= i < |rest| && !rest[i].VStr? &&
            forall j | 0 <= j < i :: rest[j].VStr? && Lower(rest[j].s) !in names;
          assert items[i + 1] == rest[i];
          forall j | 0 <= j < i + 1 ensures items[j].VStr? && Lower(items[j].s) !in names {
            if j > 0 { assert items[j] == rest[j - 1]; }
          }
        }
        if exists i | 0 <= i < |items| :: !items[i].VStr? &&
            forall j | 0 <= j < i :: items[j].VStr? && Lower(items[j].s) !in names {
          var i :| 0 <= i < |items| && !items[i].VStr? &&
            forall j | 0 <= j < i :: items[j].VStr? && Lower(items[j].s) !in names;
          assert i > 0;
          assert rest[i - 1] == items[i];
          forall j | 0 <= j < i - 1 ensures rest[j].VStr? && Lower(rest[j].s) !in names {
            assert rest[j] == items[j + 1];
          }
        }
      } else if items[0].VStr? {
        forall i | 0 <= i < |items| && !items[i].VStr?
          ensures !(forall j | 0 <= j < i :: items[j].VStr? && Lower(items[j].s) !in names)
        {
          assert i > 0;
        }
      }
    }
  }

  /** `_is_admin`: false without stored groups; over a stored list of
      strings, true exactly when one of them is `jira-administrators` or
      `jira-software-administrators` in any letter case; a stored string is
      never a match (its characters are too short to be a group name); the
      check raises when a non-string comes before any match, or when the
      stored value cannot be iterated. */
  lemma IsAdminSpec(settings: Settings, uid: int)
    ensures SettingOf(settings, uid, "jira_groups").None? ==> IsAdmin(settings, uid) == Some(false)
    ensures SettingOf(settings, uid, "jira_groups").Some? ==>
      var g := SettingOf(settings, uid, "jira_groups").value;
      && (g.VList? && (forall i | 0 <= i < |g.items| :: g.items[i].VStr?) ==>
            IsAdmin(settings, uid) == Some(IsAdminGroups(ItemStrings(g.items))))
      && (g.VList? ==> (IsAdmin(settings, uid).None? <==>
            exists i | 0 <= i < |g.items| :: !g.items[i].VStr? &&
              forall j | 0 <= j < i :: g.items[j].VStr? && Lower(g.items[j].s) !in AdminGroups))
      && (g.VStr? ==> IsAdmin(settings, uid) == Some(false))
      && (g.VNone? || g.VBool? || g.VInt? || g.VFloat? || g.VDateTime? ==> IsAdmin(settings, uid).None?)
  {
    var o := SettingOf(settings, uid, "jira_groups");
    if o.Some? {
      var g := o.value;
      if g.VList? {
        AnyLowerInItemsRaises(g.items, AdminGroups);
        if forall i | 0 <= i < |g.items| :: g.items[i].VStr? {
          AnyLowerInStrings(g.items, AdminGroups);
        }
      }
      if g.VStr? {
        var chars := seq(|g.s|, i requires 0 <= i < |g.s| => [g.s[i]]);
        forall i | 0 <= i < |chars| ensures Lower(chars[i]) !in AdminGroups {
          assert |Lower(chars[i])| == 1;
        }
      }
    }
  }

  /** `_is_power_user`: the same check for `jira-software-users`. */
  lemma IsPowerUserSpec(settings: Settings, uid: int)
    ensures SettingOf(settings, uid, "jira_groups").None? ==> IsPowerUser(settings, uid) == Some(false)
    ensures SettingOf(settings, uid, "jira_groups").Some? ==>
      var g := SettingOf(settings, uid, "jira_groups").value;
      && (g.VList? && (forall i | 0 <= i < |g.items| :: g.items[i].VStr?) ==>
            IsPowerUser(settings, uid) == Some(IsPowerUserGroups(ItemStrings(g.items))))
      && (g.VList? ==> (IsPowerUser(settings, uid).None? <==>
            exists i | 0 <= i < |g.items| :: !g.items[i].VStr? &&
              forall j | 0 <= j < i :: g.items[j].VStr? && Lower(g.items[j].s) !in PowerUserGroups))
      && (g.VStr? ==> IsPowerUser(settings, uid) == Some(false))
      && (g.VNone? || g.VBool? || g.VInt? || g.VFloat? || g.VDateTime? ==> IsPowerUser(settings, uid).None?)
  {
    var o := SettingOf(settings, uid, "jira_groups");
    if o.Some? {
      var g := o.value;
      if g.VList? {
        AnyLowerInItemsRaises(g.items, PowerUserGroups);
        if forall i | 0 <= i < |g.items| :: g.items[i].VStr? {
          AnyLowerInStrings(g.items, PowerUserGroups);
        }
      }
      if g.VStr? {
        var chars := seq(|g.s|, i requires 0 <= i < |g.s| => [g.s[i]]);
        forall i | 0 <= i < |chars| ensures Lower(chars[i]) !in PowerUserGroups {
          assert |Lower(chars[i])| == 1;
        }
      }
    }
  }

  // -----------------------------------------------------------------------
  // /weeks

  /** The length of the run of non-whitespace characters at the start. */
  function WordLength(s: string): (n: nat)
    ensures n <= |s|
    ensures forall i | 0 <= i < n :: !IsSpace(s[i])
    ensures n < |s| ==> IsSpace(s[n])
  {
    if |s| == 0 || IsSpace(s[0]) then 0 else 1 + WordLength(s[1..])
  }

  /** `text.split()`: the maximal runs of non-whitespace characters. */
  function Words(s: string): (ws: seq<string>)
    ensures forall i | 0 <= i < |ws| :: |ws[i]| > 0 && forall k | 0 <= k < |ws[i]| :: !IsSpace(ws[i][k])
    decreases |s|
  {
    if |s| == 0 then []
    else if IsSpace(s[0]) then Words(s[1..])
    else
      var n := WordLength(s);
      [s[..n]] + Words(s[n..])
  }

  predicate IsWord(w: string)
  {
    |w| > 0 && forall k | 0 <= k < |w| :: !IsSpace(w[k])
  }

  lemma {:induction false} WordLengthOf(w: string, rest: string)
    requires forall k | 0 <= k < |w| :: !IsSpace(w[k])
    requires |rest| == 0 || IsSpace(rest[0])
    ensures WordLength(w + rest) == |w|
    decreases |w|
  {
    if |w| > 0 {
      assert (w + rest)[1..] == w[1..] + rest;
      WordLengthOf(w[1..], rest);
    } else {
      assert w + rest == rest;
    }
  }

  /** Two words with a space between split back into those two words. */
  lemma WordsOfTwo(a: string, b: string)
    requires IsWord(a) && IsWord(b)
    ensures Words(a + " " + b) == [a, b]
  {
    var s := a + " " + b;
    WordLengthOf(a, " " + b);
    assert s == a + (" " + b);
    assert s[0] == a[0] && !IsSpace(s[0]);
    assert s[..|a|] == a && s[|a|..] == " " + b;
    assert Words(s) == [a] + Words(" " + b);
    assert (" " + b)[1..] == b;
    assert Words(" " + b) == Words(b);
    WordLengthOf(b, []);
    assert b + [] == b;
    assert b[0] == b[0] && !IsSpace(b[0]);
    assert b[..|b|] == b && b[|b|..] == [];
    assert Words(b) == [b] + Words([]);
  }

  /** What the bot answers to `/weeks`. */
  datatype WeeksReply = NeedToken | Usage | NotANumber | OutOfRange | WeeksSet(weeks: int)

  /** `_handle_weeks`: with a token and exactly one argument that `int`
      accepts and lies in 1..12, store it as the user's `weeks` (creating
      their settings when missing); otherwise change nothing. */
  function HandleWeeks(settings: Settings, uid: int, text: string): (Settings, WeeksReply)
  {
    if !Truthy(UserToken(settings, uid)) then (settings, NeedToken)
    else
      var args := Words(text);
      if |args| != 2 then (settings, Usage)
      else
        match ParseInt(args[1])
        case None => (settings, NotANumber)
        case Some(w) =>
          if w < 1 || w > 12 then (settings, OutOfRange)
          else (SetUserSetting(settings, uid, "weeks", VInt(w)), WeeksSet(w))
  }

  /** The settings change exactly when the reply is `WeeksSet(w)`, which
      happens exactly when the user has a token and the text is two words
      whose second parses as an integer `w` in 1..12; then the user's weeks
      read back as `w` and nothing else changes. */
  lemma HandleWeeksSpec(settings: Settings, uid: int, text: string, w: int, default: Value)
    ensures var (r, reply) := HandleWeeks(settings, uid, text);
      && (!reply.WeeksSet? ==> r == settings)
      && (reply == WeeksSet(w) <==>
            Truthy(UserToken(settings, uid)) && |Words(text)| == 2 && ParseInt(Words(text)[1]) == Some(w) && 1 <= w <= 12)
      && (reply == WeeksSet(w) ==>
            && GetUserWeeks(r, uid, default) == VInt(w)
            && r.Keys == settings.Keys + {uid}
            && (forall u | u in settings && u != uid :: r[u] == settings[u])
            && (forall k | k != "weeks" && uid in settings && k in settings[uid] :: k in r[uid] && r[uid][k] == settings[uid][k])
            && (forall k | k != "weeks" :: (k in r[uid] <==> uid in settings && k in settings[uid])))
  {
    SetUserSettingFrame(settings, uid, "weeks", VInt(w));
  }

  lemma IntStringIsWord(n: int)
    ensures IsWord(IntToString(n))
  {
    var d := NatToString(if n < 0 then -n else n);
    assert forall k | 0 <= k < |d| :: !IsSpace(d[k]) by {
      assert AllDigits(d);
    }
    if n < 0 {
      assert IntToString(n) == "-" + d;
      assert forall k | 1 <= k < |IntToString(n)| :: IntToString(n)[k] == d[k - 1];
    }
  }

  /** `/weeks n` written the usual way, by a user with a token, stores `n`
      when it is in 1..12 and is refused otherwise. */
  lemma WeeksCommand(settings: Settings, uid: int, n: int)
    requires Truthy(UserToken(settings, uid))
    ensures HandleWeeks(settings, uid, "/weeks " + IntToString(n)).1 == if 1 <= n <= 12 then WeeksSet(n) else OutOfRange
  {
    IntStringRoundTrip(n);
    IntStringIsWord(n);
    WeeksWords(IntToString(n));
  }

  /** `/weeks` followed by one word splits into the command and that word. */
  lemma WeeksWords(arg: string)
    requires IsWord(arg)
    ensures |Words("/weeks " + arg)| == 2 && Words("/weeks " + arg)[1] == arg
  {
    WordsOfTwo("/weeks", arg);
    assert "/weeks " + arg == "/weeks" + " " + arg;
  }

  // -----------------------------------------------------------------------
  // /logout

  /** `d.get(key)`: `None` when absent. */
  function GetOrNone(m: UserSettings, key: string): Value
  {
    if key in m then m[key] else VNone
  }

  /** `_handle_logout` as written: a user with a token keeps only
      `project` and `weeks`, each read with `.get` (so `None` when it was never
      set), plus `waiting_for_token`; without a token nothing changes. */
  function HandleLogout(settings: Settings, uid: int): Settings
  {
    if uid in settings && "token" in settings[uid] then
      var mine := settings[uid];
      settings[uid := map["project" := GetOrNone(mine, "project"), "weeks" := GetOrNone(mine, "weeks"),
                          "waiting_for_token" := VBool(true)]]
    else settings
  }

  /** A logged-out user's settings are exactly `project`, `weeks` and
      `waiting_for_token: True`; the token and every other key are gone;
      other users are untouched; without a token nothing changes. */
  lemma HandleLogoutSpec(settings: Settings, uid: int)
    ensures var r := HandleLogout(settings, uid);
      && (!(uid in settings && "token" in settings[uid]) ==> r == settings)
      && (uid in settings && "token" in settings[uid] ==>
            && r.Keys == settings.Keys
            && r[uid].Keys == {"project", "weeks", "waiting_for_token"}
            && r[uid]["project"] == GetOrNone(settings[uid], "project")
            && r[uid]["weeks"] == GetOrNone(settings[uid], "weeks")
            && r[uid]["waiting_for_token"] == VBool(true)
            && "token" !in r[uid]
            && UserToken(r, uid) == VNone
            && forall u | u in settings && u != uid :: r[u] == settings[u])
  {
  }

  /** As written, logging out a user who never chose a week count or a
      project stores `None` for them, and the getters then return `None`
      instead of the configured defaults. */
  lemma LogoutLosesDefaults(settings: Settings, uid: int, defaultProject: Value, defaultWeeks: Value)
    requires uid in settings && "token" in settings[uid]
    requires "project" !in settings[uid] && "weeks" !in settings[uid]
    ensures GetUserProject(settings, uid, defaultProject) == defaultProject
    ensures GetUserWeeks(settings, uid, defaultWeeks) == defaultWeeks
    ensures GetUserProject(HandleLogout(settings, uid), uid, defaultProject) == VNone
    ensures GetUserWeeks(HandleLogout(settings, uid), uid, defaultWeeks) == VNone
  {
  }

  /** The smallest case: a user holding only a token. */
  lemma LogoutLosesDefaultsExample(uid: int)
    ensures var s := map[uid := map["token" := VStr("t")]];
      GetUserWeeks(HandleLogout(s, uid), uid, VInt(4)) == VNone && GetUserWeeks(s, uid, VInt(4)) == VInt(4)
  {
    var s := map[uid := map["token" := VStr("t")]];
    LogoutLosesDefaults(s, uid, VStr("P"), VInt(4));
  }

  /** Logout keeping only the settings the user actually has: `project` and
      `weeks` are copied when present, and `waiting_for_token` is set. */
  function HandleLogoutKeepingDefaults(settings: Settings, uid: int): Settings
  {
    if uid in settings && "token" in settings[uid] then
      var mine := settings[uid];
      var kept := map k | k in mine && (k == "project" || k == "weeks") :: mine[k];
      settings[uid := kept["waiting_for_token" := VBool(true)]]
    else settings
  }

  /** With the corrected logout the token is gone, the user waits for a new
      one, and the project and week count read back as before, stored value
      or default alike; other users are untouched. */
  lemma LogoutKeepsSettings(settings: Settings, uid: int, defaultProject: Value, defaultWeeks: Value)
    ensures var r := HandleLogoutKeepingDefaults(settings, uid);
      && GetUserProject(r, uid, defaultProject) == GetUserProject(settings, uid, defaultProject)
      && GetUserWeeks(r, uid, defaultWeeks) == GetUserWeeks(settings, uid, defaultWeeks)
      && UserToken(r, uid) == VNone
      && (uid in settings && "token" in settings[uid] ==>
            && r[uid].Keys <= {"project", "weeks", "waiting_for_token"}
            && r[uid]["waiting_for_token"] == VBool(true))
      && r.Keys == settings.Keys
      && forall u | u in settings && u != uid :: r[u] == settings[u]
  {
  }
}
