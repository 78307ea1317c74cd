/** The pure parts of the storage service: the recursive `datetime`-to-text
    conversion applied before settings are written, the choice of the latest
    statistics file and of the files a cleanup deletes, the string/int
    conversion of user ids around the settings file, and `set_user_setting`.
    Reading and writing files, pickle and JSON are not modelled. */
module Storage {
  import opened Base
  import opened Decimal
  import opened Sorting
  import opened Values

  // -----------------------------------------------------------------------
  // _convert_datetime_to_str

  /** `_convert_datetime_to_str`: every `datetime` becomes its ISO text,
      dicts and lists are rebuilt with converted members, anything else is
      returned as is. */
  function Convert(v: Value): Value
  {
    match v
    case VDateTime(dt) => VStr(IsoFormat(dt))
    case VList(items) => VList(seq(|items|, i requires 0 <= i < |items| => Convert(items[i])))
    case VDict(entries) =>
      VDict(seq(|entries|, i requires 0 <= i < |entries| => (entries[i].0, Convert(entries[i].1))))
    case _ => v
  }

  /** The conversion keeps the shape: a list stays a list of the same length
      with each item converted in place, a dict keeps its keys in order with
      each value converted, a `datetime` becomes a string, and every other
      value is untouched. */
  lemma ConvertShape(v: Value)
    ensures v.VDateTime? ==> Convert(v).VStr?
    ensures v.VList? ==>
      && Convert(v).VList? && |Convert(v).items| == |v.items|
      && forall i | 0 <= i < |v.items| :: Convert(v).items[i] == Convert(v.items[i])
    ensures v.VDict? ==>
      && Convert(v).VDict? && |Convert(v).entries| == |v.entries|
      && forall i | 0 <= i < |v.entries| ::
           Convert(v).entries[i].0 == v.entries[i].0 && Convert(v).entries[i].1 == Convert(v.entries[i].1)
    ensures !v.VDateTime? && !v.VList? && !v.VDict? ==> Convert(v) == v
  {
  }

  /** No `datetime` is left after the conversion. */
  lemma {:induction false} ConvertRemovesDateTimes(v: Value)
    ensures NoDateTime(Convert(v))
    decreases v
  {
    match v
    case VList(items) =>
      forall i | 0 <= i < |items| ensures NoDateTime(Convert(v).items[i]) {
        ConvertRemovesDateTimes(items[i]);
      }
    case VDict(entries) =>
      forall i | 0 <= i < |entries| ensures NoDateTime(Convert(v).entries[i].1) {
        ConvertRemovesDateTimes(entries[i].1);
      }
    case _ =>
  }

  /** A value without a `datetime` inside is left exactly as it is. */
  lemma {:induction false} ConvertKeepsPlainValues(v: Value)
    requires NoDateTime(v)
    ensures Convert(v) == v
    decreases v
  {
    match v
    case VList(items) =>
      forall i | 0 <= i < |items| ensures Convert(items[i]) == items[i] {
        ConvertKeepsPlainValues(items[i]);
      }
      assert Convert(v).items == items;
    case VDict(entries) =>
      forall i | 0 <= i < |entries| ensures (entries[i].0, Convert(entries[i].1)) == entries[i] {
        ConvertKeepsPlainValues(entries[i].1);
      }
      assert Convert(v).entries == entries;
    case _ =>
  }

  /** Converting twice is converting once. */
  lemma ConvertIdempotent(v: Value)
    ensures Convert(Convert(v)) == Convert(v)
  {
    ConvertRemovesDateTimes(v);
    ConvertKeepsPlainValues(Convert(v));
  }

  // -----------------------------------------------------------------------
  // User-id keys of the settings file

  /** One user's settings as `save_user_settings` writes them. */
  function ConvertFields(m: UserSettings): UserSettings
  {
    map k | k in m :: Convert(m[k])
  }

  /** The settings dict's entries in its order `ids`, each converted. */
  function ConvertedEntries(settings: Settings, ids: seq<int>): (es: seq<(int, UserSettings)>)
    requires forall i | 0 <= i < |ids| :: ids[i] in settings
    ensures |es| == |ids|
  {
    seq(|ids|, i requires 0 <= i < |ids| => (ids[i], ConvertFields(settings[ids[i]])))
  }

  /** Integer keys written with `str`. */
  function EncodeKeys(es: seq<(int, UserSettings)>): (saved: seq<(string, UserSettings)>)
    ensures |saved| == |es|
  {
    seq(|es|, i requires 0 <= i < |es| => (IntToString(es[i].0), es[i].1))
  }

  /** The object `save_user_settings` writes: `str(user_id)` mapped to the
      converted settings, in the dict's order `ids`. */
  function SaveSettings(settings: Settings, ids: seq<int>): (saved: seq<(string, UserSettings)>)
    requires forall i | 0 <= i < |ids| :: ids[i] in settings
  {
    EncodeKeys(ConvertedEntries(settings, ids))
  }

  /** `{int(user_id): data for user_id, data in settings.items()}`, later
      keys overwriting earlier ones; `None` when some key is not an integer
      (the `ValueError`). */
  function ParseSettings(saved: seq<(string, UserSettings)>): Option<Settings>
  {
    if |saved| == 0 then Some(map[])
    else
      match ParseSettings(saved[..|saved| - 1])
      case None => None
      case Some(m) =>
        match ParseInt(saved[|saved| - 1].0)
        case None => None
        case Some(id) => Some(m[id := saved[|saved| - 1].1])
  }

  /** `load_user_settings` once the file has been read: any failure while
      rebuilding the dict ends in the empty settings. */
  function LoadSettings(saved: seq<(string, UserSettings)>): (s: Settings)
    ensures ParseSettings(saved).None? ==> s == map[]
  {
    match ParseSettings(saved)
    case None => map[]
    case Some(m) => m
  }

  /** The dict built from integer-keyed entries, later keys overwriting
      earlier ones. */
  function MapOf(es: seq<(int, UserSettings)>): Settings
  {
    if |es| == 0 then map[] else MapOf(es[..|es| - 1])[es[|es| - 1].0 := es[|es| - 1].1]
  }

  /** Keys written with `str` are read back by `int` as the same keys. */
  lemma {:induction false} EncodeKeysRoundTrip(es: seq<(int, UserSettings)>)
    ensures ParseSettings(EncodeKeys(es)) == Some(MapOf(es))
    decreases |es|
  {
    if |es| > 0 {
      var n := |es| - 1;
      var saved := EncodeKeys(es);
      assert saved[..n] == EncodeKeys(es[..n]);
      EncodeKeysRoundTrip(es[..n]);
      EncodedKeyParses(es, n);
      ParseSettingsSnoc(saved, MapOf(es[..n]), es[n].0);
    }
  }

  lemma EncodedKeyParses(es: seq<(int, UserSettings)>, n: nat)
    requires n < |es|
    ensures ParseInt(EncodeKeys(es)[n].0) == Some(es[n].0)
  {
    IntStringRoundTrip(es[n].0);
  }

  lemma ParseSettingsSnoc(saved: seq<(string, UserSettings)>, m: Settings, id: int)
    requires |saved| > 0
    requires ParseSettings(saved[..|saved| - 1]) == Some(m)
    requires ParseInt(saved[|saved| - 1].0) == Some(id)
    ensures ParseSettings(saved) == Some(m[id := saved[|saved| - 1].1])
  {
  }

  /** `ids` lists the users of the settings dict, each once. */
  ghost predicate ListsUsers(ids: seq<int>, settings: Settings)
  {
    && (forall i, j | 0 <= i < j < |ids| :: ids[i] != ids[j])
    && (forall i | 0 <= i < |ids| :: ids[i] in settings)
    && (forall u | u in settings :: u in ids)
  }

  lemma {:induction false} MapOfConverted(settings: Settings, ids: seq<int>)
    requires forall i | 0 <= i < |ids| :: ids[i] in settings
    ensures MapOf(ConvertedEntries(settings, ids)).Keys == set i | 0 <= i < |ids| :: ids[i]
    ensures forall u | u in MapOf(ConvertedEntries(settings, ids)) ::
      MapOf(ConvertedEntries(settings, ids))[u] == ConvertFields(settings[u])
    decreases |ids|
  {
    if |ids| > 0 {
      var n := |ids| - 1;
      assert ConvertedEntries(settings, ids)[..n] == ConvertedEntries(settings, ids[..n]);
      MapOfConverted(settings, ids[..n]);
      var all := set i | 0 <= i < |ids| :: ids[i];
      var init := set i | 0 <= i < n :: ids[..n][i];
      forall u | u in all ensures u in init + {ids[n]} {
        var i :| 0 <= i < |ids| && ids[i] == u;
        if i < n { assert ids[..n][i] == u; }
      }
      assert all == init + {ids[n]};
    }
  }

  /** Saving and loading the settings gives back every user under the same
      integer id, with their settings converted: integer ids survive the
      trip through the string keys of the file. */
  lemma SettingsRoundTrip(settings: Settings, ids: seq<int>)
    requires ListsUsers(ids, settings)
    ensures LoadSettings(SaveSettings(settings, ids)) == map u | u in settings :: ConvertFields(settings[u])
  {
    var es := ConvertedEntries(settings, ids);
    EncodeKeysRoundTrip(es);
    assert LoadSettings(SaveSettings(settings, ids)) == MapOf(es);
    MapOfConverted(settings, ids);
    ListedKeys(ids, settings);
    MapsAgree(MapOf(es), settings);
  }

  /** A list of the users has exactly the users as its elements. */
  lemma ListedKeys(ids: seq<int>, settings: Settings)
    requires ListsUsers(ids, settings)
    ensures (set i | 0 <= i < |ids| :: ids[i]) == settings.Keys
  {
    forall u | u in settings ensures u in (set i | 0 <= i < |ids| :: ids[i]) {
      var i :| 0 <= i < |ids| && ids[i] == u;
    }
  }

  lemma MapsAgree(loaded: Settings, settings: Settings)
    requires loaded.Keys == settings.Keys
    requires forall u | u in loaded :: loaded[u] == ConvertFields(settings[u])
    ensures loaded == map u | u in settings :: ConvertFields(settings[u])
  {
    var want := map u | u in settings :: ConvertFields(settings[u]);
    assert want.Keys == loaded.Keys;
    forall u | u in loaded ensures loaded[u] == want[u] {
    }
  }

  /** A saved key that is not an integer loses every user's settings. */
  lemma BadKeyLosesAll(saved: seq<(string, UserSettings)>, i: nat)
    requires i < |saved| && ParseInt(saved[i].0).None?
    ensures LoadSettings(saved) == map[]
  {
    ParseFailsFrom(saved, i);
  }

  lemma {:induction false} ParseFailsFrom(saved: seq<(string, UserSettings)>, i: nat)
    requires i < |saved| && ParseInt(saved[i].0).None?
    ensures ParseSettings(saved).None?
    decreases |saved|
  {
    var n := |saved| - 1;
    if i < n {
      assert saved[..n][i] == saved[i];
      ParseFailsFrom(saved[..n], i);
    }
  }

  // -----------------------------------------------------------------------
  // set_user_setting

  /** The settings change `set_user_setting` makes before saving: the user's
      dict is created when missing and `key` set to `value`. */
  function SetUserSetting(settings: Settings, uid: int, key: string, value: Value): Settings
  {
    var mine := if uid in settings then settings[uid] else map[];
    settings[uid := mine[key := value]]
  }

  /** Only the user's `key` changes: every other user, and every other key
      of that user, keeps its value. */
  lemma SetUserSettingFrame(settings: Settings, uid: int, key: string, value: Value)
    ensures var r := SetUserSetting(settings, uid, key, value);
      && r.Keys == settings.Keys + {uid}
      && r[uid][key] == value
      && (forall u | u in settings && u != uid :: r[u] == settings[u])
      && (forall k | k != key :: (k in r[uid] <==> uid in settings && k in settings[uid]))
      && (forall k | k != key && uid in settings && k in settings[uid] :: r[uid][k] == settings[uid][k])
  {
  }

  // -----------------------------------------------------------------------
  // Statistics files

  predicate StartsWith(s: string, prefix: string)
  {
    |prefix| <= |s| && s[..|prefix|] == prefix
  }

  predicate EndsWith(s: string, suffix: string)
  {
    |suffix| <= |s| && s[|s| - |suffix|..] == suffix
  }

  /** `sub in s` for strings. */
  predicate Contains(s: string, sub: string)
  {
    |sub| <= |s| && (s[..|sub|] == sub || Contains(s[1..], sub))
  }

  /** A statistics file of the project, as `load_latest_stats` selects
      them. */
  predicate IsStatsFileFor(project: string, f: string)
  {
    StartsWith(f, project + "_stats_") && EndsWith(f, ".pkl")
  }

  /** The greatest name in Python's string order. */
  function Greatest(fs: seq<string>): (g: string)
    requires |fs| > 0
  {
    if |fs| == 1 then fs[0]
    else
      var rest := Greatest(fs[1..]);
      if StrLess(rest, fs[0]) then fs[0] else rest
  }

  /** The file names the directory listing `files` holds for the project,
      in listing order. */
  function StatsFilesFor(project: string, files: seq<string>): (r: seq<string>)
    ensures forall f :: f in r <==> f in files && IsStatsFileFor(project, f)
  {
    if |files| == 0 then []
    else (if IsStatsFileFor(project, files[0]) then [files[0]] else []) + StatsFilesFor(project, files[1..])
  }

  /** The file `load_latest_stats` reads: `sorted(files, reverse=True)[0]`
      over the project's statistics files, or `None` when there is none. */
  function LoadLatestStats(project: string, files: seq<string>): Option<string>
  {
    var mine := StatsFilesFor(project, files);
    if |mine| == 0 then None else Some(Greatest(mine))
  }

  /** Python's string order is total and transitive. */
  lemma {:induction false} StrLessTotal(a: string, b: string)
    ensures a == b || StrLess(a, b) || StrLess(b, a)
    decreases |a|
  {
    if |a| > 0 && |b| > 0 && a[0] == b[0] {
      StrLessTotal(a[1..], b[1..]);
      if a[1..] == b[1..] {
        assert a == [a[0]] + a[1..] && b == [b[0]] + b[1..];
      }
    }
  }

  lemma {:induction false} StrLessTrans(a: string, b: string, c: string)
    requires StrLess(a, b) && StrLess(b, c)
    ensures StrLess(a, c)
    decreases |a|
  {
    if |a| > 0 && a[0] == b[0] && b[0] == c[0] {
      StrLessTrans(a[1..], b[1..], c[1..]);
    }
  }

  lemma {:induction false} GreatestSpec(fs: seq<string>)
    requires |fs| > 0
    ensures Greatest(fs) in fs
    ensures forall f | f in fs :: !StrLess(Greatest(fs), f)
    decreases |fs|
  {
    if |fs| > 1 {
      var rest := fs[1..];
      var m := Greatest(rest);
      GreatestSpec(rest);
      assert fs == [fs[0]] + rest;
      if StrLess(m, fs[0]) {
        forall f | f in rest ensures !StrLess(fs[0], f) {
          if StrLess(fs[0], f) {
            StrLessTrans(m, fs[0], f);
          }
        }
        StrLessIrreflexive(fs[0]);
      }
    } else {
      StrLessIrreflexive(fs[0]);
    }
  }

  /** `load_latest_stats` finds nothing exactly when the project has no
      statistics file; otherwise it picks one of them, and no other is
      greater in Python's string order, so the choice is the unique
      greatest name. */
  lemma LoadLatestStatsSpec(project: string, files: seq<string>)
    ensures LoadLatestStats(project, files).None? <==> forall f | f in files :: !IsStatsFileFor(project, f)
    ensures LoadLatestStats(project, files).Some? ==>
      var g := LoadLatestStats(project, files).value;
      && g in files && IsStatsFileFor(project, g)
      && forall f | f in files && IsStatsFileFor(project, f) :: f == g || StrLess(f, g)
  {
    var mine := StatsFilesFor(project, files);
    if |mine| > 0 {
      assert mine[0] in mine;
      GreatestSpec(mine);
      forall f | f in files && IsStatsFileFor(project, f) ensures f == Greatest(mine) || StrLess(f, Greatest(mine)) {
        StrLessTotal(f, Greatest(mine));
      }
    }
  }

  // -----------------------------------------------------------------------
  // Timestamped file names

  /** The fields of `datetime.now().strftime('%Y%m%d_%H%M%S')`. */
  datatype Timestamp = Timestamp(year: nat, month: nat, day: nat, hour: nat, minute: nat, second: nat)

  /** A calendar time with a four-digit year. */
  predicate ValidTimestamp(t: Timestamp)
  {
    && 1000 <= t.year <= 9999 && 1 <= t.month <= 12 && 1 <= t.day <= 31
    && t.hour < 24 && t.minute < 60 && t.second < 60
  }

  /** The name `save_stats` gives a file written at `t`. */
  function StatsFileName(project: string, t: Timestamp): string
  {
    (project + "_stats_") + (Pad(t.year, 4) + (Pad(t.month, 2) + (Pad(t.day, 2) + ("_"
      + (Pad(t.hour, 2) + (Pad(t.minute, 2) + (Pad(t.second, 2) + ".pkl")))))))
  }

  /** Chronological order of timestamps. */
  predicate Before(a: Timestamp, b: Timestamp)
  {
    if a.year != b.year then a.year < b.year
    else if a.month != b.month then a.month < b.month
    else if a.day != b.day then a.day < b.day
    else if a.hour != b.hour then a.hour < b.hour
    else if a.minute != b.minute then a.minute < b.minute
    else a.second < b.second
  }

  /** A fixed-width field decides the order unless it ties, and ties only
      when the numbers are equal. */
  lemma FieldOrder(m: nat, n: nat, w: nat, x: string, y: string)
    requires 0 < w && m < Pow10(w) && n < Pow10(w)
    ensures StrLess(Pad(m, w) + x, Pad(n, w) + y) <==> m < n || (m == n && StrLess(x, y))
  {
    PadExactWidth(m, w);
    PadExactWidth(n, w);
    StrLessConcat(Pad(m, w), x, Pad(n, w), y);
    DigitStringOrder(Pad(m, w), Pad(n, w));
    DigitStringOrder(Pad(n, w), Pad(m, w));
    StrLessTotal(Pad(m, w), Pad(n, w));
  }

  lemma SameTextOrder(p: string, x: string, y: string)
    ensures StrLess(p + x, p + y) <==> StrLess(x, y)
  {
    StrLessConcat(p, x, p, y);
    StrLessIrreflexive(p);
  }

  /** For four-digit years, the names `save_stats` writes sort in Python's
      string order exactly as their timestamps sort in time. */
  lemma StatsFileNameOrder(project: string, a: Timestamp, b: Timestamp)
    requires ValidTimestamp(a) && ValidTimestamp(b)
    ensures StrLess(StatsFileName(project, a), StatsFileName(project, b)) <==> Before(a, b)
  {
    assert Pow10(2) == 100 && Pow10(4) == 10000 by {
      assert Pow10(1) == 10;
      assert Pow10(3) == 1000;
    }
    SameTextOrder(project + "_stats_", Pad(a.year, 4) + (Pad(a.month, 2) + (Pad(a.day, 2) + ("_"
      + (Pad(a.hour, 2) + (Pad(a.minute, 2) + (Pad(a.second, 2) + ".pkl")))))),
      Pad(b.year, 4) + (Pad(b.month, 2) + (Pad(b.day, 2) + ("_"
      + (Pad(b.hour, 2) + (Pad(b.minute, 2) + (Pad(b.second, 2) + ".pkl")))))));
    FieldOrder(a.year, b.year, 4, Pad(a.month, 2) + (Pad(a.day, 2) + ("_"
      + (Pad(a.hour, 2) + (Pad(a.minute, 2) + (Pad(a.second, 2) + ".pkl"))))),
      Pad(b.month, 2) + (Pad(b.day, 2) + ("_"
      + (Pad(b.hour, 2) + (Pad(b.minute, 2) + (Pad(b.second, 2) + ".pkl"))))));
    FieldOrder(a.month, b.month, 2, Pad(a.day, 2) + ("_"
      + (Pad(a.hour, 2) + (Pad(a.minute, 2) + (Pad(a.second, 2) + ".pkl")))),
      Pad(b.day, 2) + ("_" + (Pad(b.hour, 2) + (Pad(b.minute, 2) + (Pad(b.second, 2) + ".pkl")))));
    FieldOrder(a.day, b.day, 2, "_" + (Pad(a.hour, 2) + (Pad(a.minute, 2) + (Pad(a.second, 2) + ".pkl"))),
      "_" + (Pad(b.hour, 2) + (Pad(b.minute, 2) + (Pad(b.second, 2) + ".pkl"))));
    SameTextOrder("_", Pad(a.hour, 2) + (Pad(a.minute, 2) + (Pad(a.second, 2) + ".pkl")),
      Pad(b.hour, 2) + (Pad(b.minute, 2) + (Pad(b.second, 2) + ".pkl")));
    FieldOrder(a.hour, b.hour, 2, Pad(a.minute, 2) + (Pad(a.second, 2) + ".pkl"),
      Pad(b.minute, 2) + (Pad(b.second, 2) + ".pkl"));
    FieldOrder(a.minute, b.minute, 2, Pad(a.second, 2) + ".pkl", Pad(b.second, 2) + ".pkl");
    FieldOrder(a.second, b.second, 2, ".pkl", ".pkl");
    StrLessIrreflexive(".pkl");
  }

  /** A name `save_stats` writes is one of the project's statistics files. */
  lemma StatsFileNameSelected(project: string, t: Timestamp)
    ensures IsStatsFileFor(project, StatsFileName(project, t))
  {
    var tail := Pad(t.year, 4) + (Pad(t.month, 2) + (Pad(t.day, 2) + ("_"
      + (Pad(t.hour, 2) + (Pad(t.minute, 2) + Pad(t.second, 2))))));
    assert StatsFileName(project, t) == (project + "_stats_") + tail + ".pkl";
  }

  /** Among files `save_stats` wrote for the project with four-digit years,
      `load_latest_stats` picks the one written last. */
  lemma LatestIsNewest(project: string, stamps: seq<Timestamp>, files: seq<string>)
    requires |stamps| > 0 && forall i | 0 <= i < |stamps| :: ValidTimestamp(stamps[i])
    requires |files| == |stamps| && forall i | 0 <= i < |stamps| :: files[i] == StatsFileName(project, stamps[i])
    ensures LoadLatestStats(project, files).Some?
    ensures exists i | 0 <= i < |stamps| ::
      && LoadLatestStats(project, files).value == files[i]
      && forall j | 0 <= j < |stamps| :: !Before(stamps[i], stamps[j])
  {
    StatsFileNameSelected(project, stamps[0]);
    LatestAtLeast(project, files, 0);
    var g := LoadLatestStats(project, files).value;
    var i :| 0 <= i < |files| && files[i] == g;
    forall j | 0 <= j < |stamps| ensures !Before(stamps[i], stamps[j]) {
      StatsFileNameSelected(project, stamps[j]);
      LatestAtLeast(project, files, j);
      NotAfterGreatest(project, stamps[i], stamps[j]);
    }
  }

  /** The file `load_latest_stats` picks is one of the files, and no stats
      file of the project in the list sorts after it. */
  lemma LatestAtLeast(project: string, files: seq<string>, j: nat)
    requires j < |files| && IsStatsFileFor(project, files[j])
    ensures LoadLatestStats(project, files).Some?
    ensures LoadLatestStats(project, files).value in files
    ensures files[j] == LoadLatestStats(project, files).value
         || StrLess(files[j], LoadLatestStats(project, files).value)
  {
    assert files[j] in files;
    LoadLatestStatsSpec(project, files);
  }

  /** A name no greater than the name written at `a` was not written after `a`. */
  lemma NotAfterGreatest(project: string, a: Timestamp, b: Timestamp)
    requires ValidTimestamp(a) && ValidTimestamp(b)
    ensures (StatsFileName(project, b) == StatsFileName(project, a)
             || StrLess(StatsFileName(project, b), StatsFileName(project, a))) ==> !Before(a, b)
  {
    var fa, fb := StatsFileName(project, a), StatsFileName(project, b);
    StatsFileNameOrder(project, a, b);
    StrLessIrreflexive(fa);
    if StrLess(fb, fa) && StrLess(fa, fb) {
      StrLessTrans(fa, fb, fa);
    }
  }

  // -----------------------------------------------------------------------
  // cleanup_old_stats

  /** A directory entry with its modification time. */
  datatype StatFile = StatFile(name: string, mtime: real)

  /** Any project's statistics file, as `cleanup_old_stats` selects them. */
  predicate IsAnyStatsFile(f: StatFile)
  {
    EndsWith(f.name, ".pkl") && Contains(f.name, "_stats_")
  }

  function SelectStats(files: seq<StatFile>): (r: seq<StatFile>)
    ensures forall f :: f in r <==> f in files && IsAnyStatsFile(f)
  {
    if |files| == 0 then []
    else (if IsAnyStatsFile(files[0]) then [files[0]] else []) + SelectStats(files[1..])
  }

  /** Sorting by `-mtime`, largest first, is sorting by `mtime`, smallest
      first, ties kept in listing order: Python's stable `sorted`. */
  function NegMtime(f: StatFile): real { -f.mtime }

  function OldestFirst(files: seq<StatFile>): seq<StatFile>
  {
    SortDesc(SelectStats(files), NegMtime)
  }

  /** `cleanup_old_stats`: the files it deletes and the count it returns.
      Nothing goes when there are at most `maxFiles`; otherwise the oldest
      `len - maxFiles` go (all of them when `maxFiles` is negative, as the
      slice clamps). */
  function CleanupOldStats(files: seq<StatFile>, maxFiles: int): (r: (seq<StatFile>, nat))
    ensures r.1 == |r.0|
  {
    var sel := SelectStats(files);
    if |sel| <= maxFiles then ([], 0)
    else
      var sorted := OldestFirst(files);
      SortDescCorrect(sel, NegMtime);
      var n := if |sel| - maxFiles <= |sorted| then |sel| - maxFiles else |sorted|;
      (sorted[..n], n)
  }

  /** The files kept by a cleanup. */
  function CleanupKept(files: seq<StatFile>, maxFiles: int): seq<StatFile>
  {
    SortDescCorrect(SelectStats(files), NegMtime);
    OldestFirst(files)[|CleanupOldStats(files, maxFiles).0|..]
  }

  /** With at most `maxFiles` statistics files nothing is deleted and 0 is
      returned. Otherwise exactly `len - maxFiles` files are deleted (every
      one for a negative `maxFiles`), the `maxFiles` newest are kept, the
      deleted and the kept files together are the statistics files, and no
      deleted file is newer than a kept one. */
  lemma CleanupSpec(files: seq<StatFile>, maxFiles: int)
    ensures var sel := SelectStats(files);
      var deleted := CleanupOldStats(files, maxFiles).0;
      var count := CleanupOldStats(files, maxFiles).1;
      var kept := CleanupKept(files, maxFiles);
      && (|sel| <= maxFiles ==> deleted == [] && count == 0)
      && (maxFiles < |sel| ==> count == if maxFiles >= 0 then |sel| - maxFiles else |sel|)
      && (maxFiles < |sel| && maxFiles >= 0 ==> |kept| == maxFiles)
      && multiset(deleted + kept) == multiset(sel)
      && (forall i, j | 0 <= i < |deleted| && 0 <= j < |kept| :: deleted[i].mtime <= kept[j].mtime)
      && (forall f | f in deleted + kept :: IsAnyStatsFile(f) && f in files)
  {
    var sel := SelectStats(files);
    var sorted := OldestFirst(files);
    var deleted := CleanupOldStats(files, maxFiles).0;
    var kept := CleanupKept(files, maxFiles);
    OldestFirstFacts(files);
    CleanupSplit(files, maxFiles);
    SliceSplit(sorted, CleanupOldStats(files, maxFiles).1);
    OrderedSplit(deleted, kept);
    SortedStatsFiles(files);
  }

  lemma OldestFirstFacts(files: seq<StatFile>)
    ensures |OldestFirst(files)| == |SelectStats(files)|
    ensures multiset(OldestFirst(files)) == multiset(SelectStats(files))
    ensures SortedDesc(OldestFirst(files), NegMtime)
  {
    SortDescCorrect(SelectStats(files), NegMtime);
  }

  /** The cleanup deletes a prefix of the oldest-first list and keeps the rest. */
  lemma CleanupSplit(files: seq<StatFile>, maxFiles: int)
    ensures var sel := SelectStats(files);
      var n := CleanupOldStats(files, maxFiles).1;
      && n == (if |sel| <= maxFiles then 0 else if maxFiles >= 0 then |sel| - maxFiles else |sel|)
      && n <= |OldestFirst(files)|
      && CleanupOldStats(files, maxFiles).0 == OldestFirst(files)[..n]
      && CleanupKept(files, maxFiles) == OldestFirst(files)[n..]
  {
    OldestFirstFacts(files);
  }

  lemma SliceSplit<T>(s: seq<T>, n: nat)
    requires n <= |s|
    ensures s[..n] + s[n..] == s
  {
  }

  /** In a list ordered oldest first, no file of a prefix is newer than a
      file after it. */
  lemma OrderedSplit(older: seq<StatFile>, newer: seq<StatFile>)
    requires SortedDesc(older + newer, NegMtime)
    ensures forall i, j | 0 <= i < |older| && 0 <= j < |newer| :: older[i].mtime <= newer[j].mtime
  {
    forall i, j | 0 <= i < |older| && 0 <= j < |newer| ensures older[i].mtime <= newer[j].mtime {
      assert (older + newer)[i] == older[i] && (older + newer)[|older| + j] == newer[j];
    }
  }

  /** The sorted selection holds only statistics files from the listing. */
  lemma SortedStatsFiles(files: seq<StatFile>)
    ensures forall f | f in OldestFirst(files) :: IsAnyStatsFile(f) && f in files
  {
    SortDescCorrect(SelectStats(files), NegMtime);
    forall f | f in OldestFirst(files) ensures IsAnyStatsFile(f) && f in files {
      assert f in multiset(OldestFirst(files));
    }
  }
}
