# Weekly time reporting of jira_analytics_bot, in Dafny

This project models the reporting engine of a Jira analytics bot and proves
properties of it. The engine works in these steps:

- It computes the last N Monday-to-Sunday weeks.
- It walks the issues the tracker returned for each week.
  - Each issue key is handled once.
  - Issues without worklogs are collected, tagged with the first week that
    returned them.
- It turns the collected data into per-week statistics:
  - hours logged per author;
  - estimates of the no-worklog tasks, per assignee;
  - the two combined.
- It projects the statistics into:
  - the hours report;
  - the no-worklog report;
  - the tasks-count report;
  - a user's task list;
  - the web page's tables;
  - the bot's no-worklog message.

Around the engine sit the bot's per-user settings:

- the getters;
- `/weeks` and `/logout`;
- the administrator and software-user checks on the stored Jira groups;
- the storage helpers: datetime-to-text conversion, the integer user-id
  round trip through the settings file, picking the latest statistics file,
  and the old-file cleanup.

Representation choices:

- **Moments:** whole seconds since 0001-01-01 00:00:00. Dates are day
  numbers; day 0 is a Monday.
- **Week names:** the week name "Неделя N: first - last" is the record
  `WeekLabel(N, firstDay, lastDay)`.
- **Hours:** exact rationals, computed as seconds / 3600.
- **Tracker:** its answers are inputs. `fetched` holds one issue list per
  window. `worklogsOf` maps an issue key to its worklogs.
- **Analysis result:** `Stats(weekly, full)`. Python keeps the collected
  data in the same dict, under the reserved key `_full_data`.
- **Set iteration order:** the order in which Python iterates a set of users
  is not specified. It is a parameter `users`, which lists the set exactly
  once (`Reports.Enumerates`).
- **Sorting:** Python's `sorted` and `list.sort` are stable, and so is the
  model's sort. The hours report sorts with pandas' `sort_values`, whose
  default quicksort is not stable: there the order among equal totals is
  unspecified. The model orders them by `users`, and since `users` may be any
  order, every order pandas could produce is the model's result for some `users`.

Modules:

| file | module | models |
|---|---|---|
| base.dfy | Base | options, results, sums of reals |
| windows.dfy | Windows | `calculate_working_weeks` |
| records.dfy | Records | issue, worklog, task and statistics records |
| decimal.dfy | Decimal | `str`/`int` on integers, `%0Nd`, string order, `strip` |
| dedup.dfy | Dedup | first-occurrence-wins deduplication by key |
| tally.dfy | Tally | `defaultdict(float)` accumulation |
| sorting.dfy | Sorting | descending sort, stable |
| collect.dfy | Collect | `collect_project_data`, `_extract_issue_data`, `_extract_worklog_data` |
| analytics.dfy | Analytics | `_create_weekly_stats`, `analyze_project` |
| reports.dfy | Reports | `create_hours_report`, `create_no_worklog_report`, `create_tasks_count_report` |
| user_tasks.dfy | UserTasks | `get_user_tasks_details` (the `_full_data` branch) |
| current_week.dfy | CurrentWeek | the filter-and-sum loop of `get_current_week_worklogs` |
| webapp.dfy | WebApp | `prepare_stats_for_webapp` |
| roles.dfy | Roles | the group-name checks of `get_stats`, `_is_admin`, `_is_power_user` |
| values.dfy | Values | the dynamically typed settings values |
| storage.dfy | Storage | the pure parts of the storage service |
| bot.dfy | Bot | the bot's no-worklog list, role checks and settings commands |

Notes on what the code does:

- `create_no_worklog_report` does not deduplicate. It joins the weeks' lists.
  On an analysis that join already has one entry per key
  (`Reports.AnalyzedNoWorklogReport`).
- `create_hours_report` uses `worked_hours`, not `total_worked_hours`.
- The bot's no-worklog list also scans the `tasks_without_worklog` of
  `_full_data`. On an analysis this adds nothing (`Bot.AnalyzedUniqueTasks`).

## Model

| member | source | states |
|---|---|---|
| Windows.WeekWindow | jira_service.py:67-69 | window `i` starts at midnight on the Monday `i` weeks before the current week and ends 6 days 23:59:59 later, on the Sunday |
| Windows.CalculateWorkingWeeks | jira_service.py:61-72 | exactly `num_weeks` windows (none for a non-positive count); each starts on a Monday at midnight and ends 6 d 23:59:59 later; each starts 7 days before the previous; the first contains the current moment |
| Windows.WindowsTileDays | jira_service.py:66-70 | consecutive windows meet without gap, and every day of the covered stretch lies in exactly one window |
| Collect.SecondsToHours | jira_service.py:178 | hours times 3600 give back the seconds, and are non-negative for non-negative seconds |
| Collect.ExtractIssueData | jira_service.py:148-165 | a missing assignee becomes "Не назначен"; a missing estimate counts as 0 seconds; the estimate in hours is the estimate in seconds divided by 3600 |
| Collect.ExtractWorklogData | jira_service.py:167-180 | a missing author becomes "Неизвестный автор" with no author name; hours are `timeSpentSeconds` / 3600; the date is the parsed day of `started` |
| Collect.ExtractWorklogs | jira_service.py:131-136 | extraction fails exactly when some worklog's date does not parse; otherwise it keeps every worklog, in order |
| Collect.CollectProjectData | jira_service.py:74-146 | a successful collection's `weeks_info` is the windows with their fetched counts |
| Collect.CollectIsFreshFold | jira_service.py:107-114 | the nested loops with the "already processed" skip equal processing the first observation of every fetched key unconditionally; those observations have distinct keys covering every fetched key |
| Collect.CollectFailsIffMalformed | jira_service.py:131-146 | collection fails exactly when some fetched issue has a worklog whose date does not parse |
| Collect.CollectProjectDataSpec | jira_service.py:107-140 | after success, `all_issues` has exactly the fetched keys, each with the data of its first sighting; `tasks_without_worklog` and `all_worklogs` equal the reference lists built from the first sightings; every worklog date parsed |
| Collect.FirstObservationsEarliest | jira_service.py:88-110 | the sighting kept for a key comes from the first (most recent) window that returned it |
| Collect.CollectTasks | jira_service.py:119-128 | `tasks_without_worklog` is the reference list: one task per first sighting without worklogs, in order |
| Collect.CollectNoLogTasksOrder | jira_service.py:88-128 | `tasks_without_worklog` has pairwise distinct keys and runs from the most recent window to the oldest |
| Collect.CollectNoLogTasksTagged | jira_service.py:119-128 | every listed task has no worklogs and carries the label of the first window that returned it |
| Collect.CollectNoLogTasksComplete | jira_service.py:107-128 | every fetched issue without worklogs is listed |
| Collect.CollectWorklogsKeys | jira_service.py:129-136 | `all_worklogs` has one entry per issue, and each such issue is in `all_issues` |
| Collect.FreshFoldIssueKeys | jira_service.py:109-114 | processing first sightings adds exactly their keys to `all_issues` and leaves every other entry alone |
| Tally.Accumulate | jira_service.py:139-140 | after `m[k] += h` over the entries, every key holds its start value plus the sum of its entries, and no other key appears |
| Tally.Totals | analytics_service.py:63-73 | the tally from an empty map has exactly the mentioned keys, each with the sum of its entries |
| Tally.GetTotals | analytics_service.py:73 | looking a key up with default 0 gives the reference sum of its entries, for mentioned and unmentioned keys alike |
| Tally.SumOverKeys | analytics_service.py:180-183 | adding the per-key totals over distinct keys gives the total of the entries with a listed key |
| Records.InWindow | analytics_service.py:69 | keeps exactly the worklogs whose date lies between the window's first and last day, both ends inclusive |
| Records.InWindowCounts | analytics_service.py:66-72 | each worklog dated in the window is kept as many times as it occurs, every other worklog not at all |
| Analytics.WeekWorklogs | analytics_service.py:62-72 | a week's `worklogs` has no empty entry |
| Analytics.WeekWorklogsFlatten | analytics_service.py:66-72 | reading a week's `worklogs` issue by issue gives exactly the worklogs dated inside the window, in order |
| Analytics.WeekWorklogsKeys | analytics_service.py:66-72 | an issue appears in a week's `worklogs` exactly when one of its worklogs is dated inside the window, and then holds exactly those |
| Analytics.WorkedEntriesFlat | analytics_service.py:66-73 | the per-author accumulation sees exactly the window's worklogs |
| Analytics.TasksOfWeek | analytics_service.py:76-79 | a week's no-worklog tasks are exactly the collected ones tagged with that week |
| Analytics.EstimateEntries | analytics_service.py:83-85 | estimates come only from tasks with a non-zero estimate, every such task contributes, and each assignee's entries add up to the sum of that assignee's task estimates |
| Analytics.EstimateKeys | analytics_service.py:82-85 | an assignee gets an estimate key exactly when one of their tasks has a non-zero estimate |
| Analytics.MergeSpec | analytics_service.py:88-90 | the merged map has the union of the keys, and each user's value is their worked plus estimated hours, missing ones counted as 0 |
| Analytics.CreateWeeklyStats | analytics_service.py:55-104 | one statistic per `weeks_info` entry, in order, with its label, window and `total_issues` = `issues_count` |
| Analytics.WeekStatWorked | analytics_service.py:62-73 | `worked_hours` tallies exactly the worklogs dated inside the window, and `worklogs` holds exactly those |
| Analytics.WeekStatEstimates | analytics_service.py:76-85 | `estimated_as_worked_hours` has a key exactly for assignees of the week's tasks with a non-zero estimate, each with the sum of the estimates of that assignee's tasks |
| Analytics.WeekStatTotals | analytics_service.py:87-96 | `total_worked_hours` has the union of the worked and estimated keys, with worked plus estimated hours; `worked_hours` is left as tallied |
| Analytics.AnalyzeProject | analytics_service.py:18-33 | the analysis succeeds exactly when the collection does, and carries the collected data along |
| Analytics.AnalyzeProjectWeeks | analytics_service.py:22-28 | the analysis has one week per window, most recent first, labelled by position, with the number of issues fetched for it |
| Analytics.AnalyzeTaskInOneWeek | analytics_service.py:76-79 | every collected no-worklog task appears in exactly one week's list: the first window that returned it |
| Analytics.AnalyzeWorklogInOneWeek | analytics_service.py:66-72 | a worklog is counted in at most one week |
| Reports.CreateHoursReport | analytics_service.py:161-185 | the report has a column per week with its label, a closing-line cell per week, and a line per listed user |
| Reports.HoursReportRows | analytics_service.py:164-181 | lines are sorted by total, largest first, one per user with worked hours in some week, each with that user's hours week by week |
| Reports.SortedRowsPermute | analytics_service.py:181 | sorting only reorders the lines, into descending order of total |
| Reports.HoursReportGrandTotal | analytics_service.py:180-183 | the bottom-right cell equals the sum of the closing line's week cells and the sum of all users' totals |
| Reports.HoursReportColumnTotal | analytics_service.py:183 | a week's closing-line cell is the total of the entries that week's worked hours tally |
| Reports.AnalyzedHoursColumnTotals | analytics_service.py:161-185 | on an analysis, a week's closing-line cell is the total hours of all collected worklogs dated in that week's window |
| Reports.NoWorklogReport | analytics_service.py:187-194 | a task is in the report exactly when it is in some week's list |
| Reports.AnalyzedWeekBuckets | analytics_service.py:76-79 | on an analysis, week `i`'s list is the collected tasks with week number `i + 1` |
| Reports.AnalyzedNoWorklogReport | analytics_service.py:187-194 | on an analysis, the report is the collected `tasks_without_worklog`, so no key repeats |
| Reports.AnalyzedTasksCount | analytics_service.py:196-198 | on an analysis, each window's label is paired with the number of issues fetched for it |
| Sorting.SortDescCorrect | analytics_service.py:257 | the sort returns a permutation ordered by key, largest first, that keeps equal keys in input order |
| UserTasks.InSomePeriod | analytics_service.py:221-226 | a day is in the period exactly when some window contains it |
| UserTasks.UserLogs | analytics_service.py:214-229 | keeps exactly the user's worklogs dated in the period |
| UserTasks.UserLogsCounts | analytics_service.py:214-229 | each of the user's worklogs dated in some period is kept as many times as it occurs, every other worklog not at all |
| UserTasks.LoggedTasksMembers | analytics_service.py:213-244 | a logged entry exists for an issue exactly when the user has a worklog on it in the period and the issue is known; its hours are the sum of those worklogs |
| UserTasks.LoggedTasksDistinct | analytics_service.py:213-244 | with one `all_worklogs` entry per issue, no issue has two logged entries |
| UserTasks.AddNoLogTasksSpec | analytics_service.py:247-255 | earlier entries are kept; only estimates of the user's tasks under a not-yet-listed key are added; every task of the user ends up listed |
| UserTasks.UnsortedSpec | analytics_service.py:203-255 | before sorting, the logged entries come first, followed only by estimates under fresh keys |
| UserTasks.UserTasksOrder | analytics_service.py:257 | the list is a stable descending sort of the unsorted list |
| UserTasks.UserTasksDistinct | analytics_service.py:233-255 | no key appears twice in the user's list |
| UserTasks.UserTasksMembers | analytics_service.py:257 | sorting neither adds nor drops entries |
| UserTasks.AnalyzedUserTasks | analytics_service.py:200-257 | on an analysis, the periods are the analysed windows; no issue appears twice; every issue the user logged in the period has a logged entry with exactly those worklogs; every no-worklog task assigned to the user is listed |
| CurrentWeek.CurrentWindow | jira_service.py:213-216 | the current week is the first window of `calculate_working_weeks`: Monday midnight to Sunday 23:59:59, containing now |
| CurrentWeek.ScanWorklogs | jira_service.py:234-246 | the loop over one issue's worklogs keeps the reference entries, and the hours it adds are their sum |
| CurrentWeek.GetCurrentWeekWorklogs | jira_service.py:228-253 | succeeds exactly when the reference filter does; the result lists its entries, and `total_hours` is the sum of their hours |
| CurrentWeek.IssueMatchesMembers | jira_service.py:234-246 | an issue's entries are exactly its worklogs dated in the week and written by `username` |
| CurrentWeek.AllMatchesMembers | jira_service.py:231-246 | every returned entry is dated in the week and comes from a worklog by `username` |
| CurrentWeek.IssueMatchesFails | jira_service.py:235-238 | an issue's scan succeeds exactly when every date parses and every worklog dated in the week has an author |
| CurrentWeek.AllFailureStops | jira_service.py:231-246 | once a prefix of the issues fails, the whole query fails with that error |
| WebApp.PrepareStatsForWebapp | web_app.py:209-249 | one table line per listed user; `weeks` and `tasks_count` have one entry per week, each count paired with its week's label |
| WebApp.WebHoursTable | web_app.py:212-231 | lines are sorted by total, largest first, one per user with combined hours in some week, each with that user's combined hours per week (0 where absent) |
| WebApp.CombinedRow | web_app.py:220-227 | a web line is the report's worked line plus the estimate line, week by week and in total |
| WebApp.AnalyzedWebRows | web_app.py:212-227 | for the weekly statistics of any collected data, the web table's users are the worked-hours users plus the estimate users, and each web line adds the user's worked and estimated hours week by week and in total |
| WebApp.AnalyzedWebLists | web_app.py:234-246 | on an analysis, the page's no-worklog list is the collected `tasks_without_worklog`; its weeks are the window labels, each paired with the number of issues fetched for it |
| WebApp.UsersAsWrittenSpec | web_app.py:212-214 | the users walk raises as soon as it meets the collected data, and over week entries alone it is the union of their users |
| WebApp.PrepareStatsAsWrittenFails | web_app.py:212-214 | as written, the function raises on every analysis result |
| WebApp.WeeksOnlyUsers | web_app.py:212-214 | skipping `_full_data`, the walk yields exactly the users the corrected table has lines for |
| Roles.AnyLowerIn | web_app.py:77-78 | the check holds exactly when some group, lowered, is one of the names |
| Roles.AnyLowerInIgnoresCase | web_app.py:77-78 | against lower-case names, the check holds exactly when some group spells a name up to letter case |
| Roles.IsAdminGroupsSpec | web_app.py:77-78 | the administrator flag is set exactly when some group is `jira-administrators` or `jira-software-administrators`, in any letter case |
| Roles.IsPowerUserGroupsSpec | bot_service.py:962 | the software-user flag is set exactly when some group is `jira-software-users`, in any letter case |
| Decimal.NatToString | storage_service.py:97 | `str(n)` is a non-empty digit string without leading zeros whose value is `n` |
| Decimal.Pad | storage_service.py:29 | a `%0Nd` field is a digit string of at least `N` characters whose value is the number |
| Decimal.DigitStringOrder | storage_service.py:29 | equally long digit strings compare as text exactly as their values compare |
| Decimal.StrLessConcat | storage_service.py:55 | comparing joins whose first parts have equal length compares the first parts, and the second parts only on a tie |
| Decimal.ParseInt | bot_service.py:493 | `int(text)` accepts only text with something left after stripping whitespace |
| Decimal.ParseDigits | bot_service.py:493 | a non-empty digit string, leading zeros included, reads as its decimal value |
| Decimal.ParseIntLeadingZeros | bot_service.py:493 | a zero-padded number reads back as the number |
| Decimal.ParseSignedDigits | bot_service.py:493 | a `+` or `-` followed by digits reads as the value of the digits, negated after `-` |
| Decimal.ParseIntSpaces | bot_service.py:493 | surrounding whitespace does not change what a text reads as |
| Decimal.ParseDigitGroups | bot_service.py:493 | digit groups joined by single underscores read as the digits with the underscores removed |
| Decimal.ParseIntUnderscore | bot_service.py:493 | one underscore between two digit runs is skipped: the text reads as the two runs joined |
| Decimal.ParseIntNeedsDigit | bot_service.py:493 | text without a digit is a `ValueError` |
| Decimal.IntStringRoundTrip | storage_service.py:136 | `int` reads the text `str` writes for an integer back as that integer |
| Dedup.DedupByKeys | bot_service.py:547-552 | the result has pairwise distinct keys, and every input key survives |
| Dedup.DedupIsFirstOccurrences | bot_service.py:547-552 | the scan keeps exactly the first element of each key, in input order |
| Dedup.DedupIdempotent | bot_service.py:771-779 | deduplicating twice is deduplicating once |
| Dedup.DedupAppendCovered | bot_service.py:547-552 | appending elements whose keys were all seen changes nothing |
| Dedup.DedupFromDistinct | jira_service.py:107-110 | input whose keys are distinct and unseen passes through unchanged |
| Dedup.DedupFromEarliest | jira_service.py:107-110 | with non-decreasing ranks, the element kept for a key has the smallest rank among that key's elements |
| Storage.ConvertRemovesDateTimes | storage_service.py:65-74 | no datetime is left anywhere in the converted value |
| Storage.ConvertKeepsPlainValues | storage_service.py:73-74 | a value with no datetime inside is returned as it is |
| Storage.ConvertIdempotent | storage_service.py:65-74 | converting twice is converting once |
| Storage.EncodeKeysRoundTrip | storage_service.py:94-97 | keys written with `str` are read back by `int` as the same keys |
| Storage.SettingsRoundTrip | storage_service.py:93-136 | saving and loading gives back every user under the same integer id, with their settings converted |
| Storage.BadKeyLosesAll | storage_service.py:136-161 | a saved key that is not an integer loses every user's settings |
| Storage.SetUserSettingFrame | storage_service.py:174-184 | only the user's given key changes, and the user's dict is created when missing; every other user and key keeps its value |
| Storage.StatsFilesFor | storage_service.py:48-49 | a name is selected exactly when it starts with "{project}_stats_" and ends with ".pkl" |
| Storage.StrLessTotal | storage_service.py:55 | Python's string order is total |
| Storage.LoadLatestStatsSpec | storage_service.py:48-55 | nothing is found exactly when the project has no statistics file; otherwise the pick is one of them and is greater than every other |
| Storage.StatsFileNameOrder | storage_service.py:29-30 | for four-digit years, file names compare as text exactly as their timestamps compare in time |
| Storage.StatsFileNameSelected | storage_service.py:29-30 | a name `save_stats` writes is one of the project's statistics files |
| Storage.LatestIsNewest | storage_service.py:26-55 | among files `save_stats` wrote, `load_latest_stats` picks the one with the latest timestamp |
| Storage.SelectStats | storage_service.py:190-191 | a file is considered exactly when its name ends with ".pkl" and contains "_stats_" |
| Storage.CleanupOldStats | storage_service.py:186-210 | the count returned is the number of files deleted |
| Storage.CleanupSpec | storage_service.py:193-207 | with at most `max_files` files nothing is deleted; otherwise exactly `len - max_files` files go (all for a negative maximum) and `max_files` stay; no deleted file is newer than a kept one; deleted plus kept are exactly the selected files |
| Bot.UniqueTasksSpec | bot_service.py:542-553 | the list has pairwise distinct keys, keeps every scanned key with its first task, in scanning order, and deduplicating it again changes nothing |
| Bot.AnalyzedUniqueTasks | bot_service.py:760-779 | on an analysis, the bot's list and the message's deduplicated list are both the collected `tasks_without_worklog` |
| Bot.AssignedTo | bot_service.py:785-790 | a task is in an assignee's list exactly when it is a task assigned to them |
| Bot.GroupByAssigneeIsRef | bot_service.py:785-790 | the grouping loop builds one group per assignee in first-appearance order, holding that assignee's tasks in order |
| Bot.GroupByAssigneeSpec | bot_service.py:785-807 | groups have distinct assignees and are non-empty; every task is in its assignee's group and no other; the group sizes add up to the task count |
| Bot.GroupedCountAll | bot_service.py:793-807 | the per-assignee counts add up to the total the message prints |
| Bot.GettersSpec | bot_service.py:932-942 | a stored project or week count wins, and the configured default is used when none is stored; `set_user_setting` is read back |
| Bot.AnyLowerInItemsRaises | bot_service.py:954-955 | the check raises exactly when a non-string group comes before any match |
| Bot.IsAdminSpec | bot_service.py:950-956 | false without stored groups; over a list of strings, true exactly when one is an administrator group in any letter case; never true for a stored string; raises when the value cannot be iterated |
| Bot.IsPowerUserSpec | bot_service.py:958-963 | the same as `_is_admin`, for `jira-software-users` |
| Bot.Words | bot_service.py:486 | `split()` yields non-empty words without whitespace |
| Bot.WordsOfTwo | bot_service.py:486 | two words with a space between split back into those two words |
| Bot.HandleWeeksSpec | bot_service.py:477-508 | settings change only on success; success means a token, exactly two words, and a second word that parses to 1..12; then the week count reads back and nothing else changes |
| Bot.WeeksCommand | bot_service.py:486-505 | for a user with a token, `/weeks n` stores `n` when it is in 1..12 and is refused otherwise |
| Bot.HandleLogoutSpec | bot_service.py:510-540 | a user with a token is left with exactly `project`, `weeks` and `waiting_for_token: True`, and the token is gone; other users are untouched; without a token nothing changes |
| Bot.LogoutLosesDefaults | bot_service.py:516-524 | a user who had only a token reads back project and weeks as `None` after logout instead of the configured defaults |
| Bot.LogoutKeepsSettings | bot_service.py:510-524 | with the corrected logout, project and weeks read back as before, whether stored or default; the token is gone and the user waits for a new one |

## Left out

- **Telegram I/O:** messages, keyboards, Markdown/HTML text and sending are not modelled. The grouped no-worklog message is modelled only down to its groups and counts.
- **Background work:** the scheduler, the polling loop, the weekly broadcast and the web server thread are concurrency and timing, so they are left out.
- **Network calls:** Jira calls, JQL strings and FastAPI routing are replaced by their inputs:
  - the per-window issue lists and the worklogs per key;
  - the issues the current-week query returned;
  - the user's group list.
- **File I/O:**
  - Reading and writing files, pickle, backup restore and `os.listdir`/`getmtime` are left out. The model takes the directory listing, the modification times and the saved entries as inputs.
  - JSON is treated as writing converted values unchanged. Tuples and sets, which the value universe does not contain, are not modelled.
- **Floats:** hours are exact. `round(…, 2)` in the hours report and on the web page is left out, and so is the web table's sort on the rounded total (it sorts on the exact total).
- **pandas:** DataFrame mechanics are left out, beyond the rows, columns, sums and descending sort the report computes. The report's lemmas hold for every `users` order, which covers every tie order of the unstable `sort_values`.
- **Wall-clock code:** the clock is a parameter. `analyze_current_week`, with its progress bar and 40-hour arithmetic, is left out because it rests on `datetime.now()` and floats.
- **Other queries:** `get_done_tasks_without_worklog` (a query wrapper) and `analyze_user_project` (the user-filtered fetch is again an input) are left out. So is the legacy branch of `get_user_tasks_details`, which reads columns no producer writes.
- **Unicode beyond ASCII:**
  - `str.split`, `str.strip` and `int` are modelled on ASCII whitespace and digits.
  - `str.lower` is modelled on A–Z. Every group name compared against is ASCII lower case, and no non-ASCII character lowers into ASCII except the Kelvin sign, which lowers to 'k'. No compared name contains 'k', so matching against those names is exact.
- **Week names:** the label text is the record `WeekLabel`, not its rendered string. `%Y` for years below 1000 is not modelled: `Storage.StatsFileNameOrder` assumes four-digit years.
- Reports.CreateHoursReport: a user whose display name is `Всего` is not modelled apart. In the source, assigning the column sums to the line labelled `Всего` (analytics_service.py:183) then overwrites that user's line with the column sums instead of appending a line, so that user's hours vanish from the report. The model always keeps one line per user and a separate totals line.
- **Set order:** the iteration order of Python sets is unspecified. `Reports.CreateHoursReport` and `WebApp.PrepareStatsForWebapp` take it as the `users` parameter; their lemmas hold for every order.
- **Clock values:**
  - Windows.CalculateWorkingWeeks: moments are whole seconds. Microseconds of `datetime.now()` are dropped, which changes no window because each window starts at midnight.
  - Windows.CalculateWorkingWeeks: no daylight-saving shifts are modelled (naive local time).
- Bot.GroupByAssignee: the `'Не назначен'` fallback of `task.get('assignee', …)` is not modelled. Every task record carries an assignee; extraction already substitutes the same text.
- Bot.IsAdminSpec: for a stored dict, only the fact that its keys are scanned is modelled. No lemma states more about that case.
- Bot.HandleWeeks: the in-memory dict is modelled; saving it goes through the same conversion as `Storage.SaveSettings`, and that step is not composed here.

## Findings

| source | as written | input that shows it | evidently intended | confidence | as-written member | corrected member |
|---|---|---|---|---|---|---|
| web_app.py:212-214 | collects users from `total_worked_hours` of every value of the analysis dict, which includes the `_full_data` entry that `analyze_project` adds (analytics_service.py:28) and that has no such key | any result of `analyze_project`: the `_full_data` value raises `KeyError('total_worked_hours')` | skip `_full_data` as every other projection does, so the table is built from the weeks alone | not executed | WebApp.PrepareStatsAsWrittenFails | WebApp.WebHoursTable |
| bot_service.py:516-524 | `/logout` stores `.get('project')` and `.get('weeks')`, so a user who never set them gets explicit `None` values | settings `{uid: {'token': 't'}}` then `/logout`: `_get_user_weeks` returns `None` instead of `DEFAULT_WEEKS_COUNT`, and `_get_user_project` returns `None` instead of `DEFAULT_PROJECT_KEY` | keep only the settings the user actually has, so the configured defaults still apply | not executed | Bot.LogoutLosesDefaults | Bot.LogoutKeepsSettings |
