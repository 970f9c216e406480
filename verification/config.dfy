/** The configuration records: FTP targets, jobs and the application settings; how load_state
    fills in missing fields; how the job form (on_job_select / job_save) and the settings form
    (settings_save) turn text back into values. */
module Config {
  import opened Tree
  import Glob
  import Text

  datatype Target = Target(name: string, host: string, port: int, username: string, password: string, tls: bool)

  datatype Job = Job(
    name: string,
    enabled: bool,
    mode: string,
    localFolders: seq<string>,
    ftpTarget: string,
    ftpFolders: seq<string>,
    excludeFiles: seq<string>,
    excludeFolders: seq<string>,
    scheduleEnabled: bool,
    days: seq<int>,
    hour: int,
    minute: int,
    lastRunKey: string,
    dryRun: bool)

  /** The application settings: tick_seconds and timeout_seconds. */
  datatype Settings = Settings(tick: int, timeout: int)

  /** The whole configuration as the app holds it and save_state writes it. */
  datatype State = State(settings: Settings, targets: seq<Target>, jobs: seq<Job>)

  const AllDays: seq<int> := [0, 1, 2, 3, 4, 5, 6]

  // ---------------------------------------------------------------------------------------
  // load_state: the stored document, with every field possibly missing

  datatype TargetRecord = TargetRecord(
    name: Option<string>, host: Option<string>, port: Option<int>,
    username: Option<string>, password: Option<string>, tls: Option<bool>)

  datatype JobRecord = JobRecord(
    name: Option<string>,
    enabled: Option<bool>,
    mode: Option<string>,
    localFolders: Option<seq<string>>,
    ftpTarget: Option<string>,
    ftpFolders: Option<seq<string>>,
    excludeFiles: Option<seq<string>>,
    excludeFolders: Option<seq<string>>,
    scheduleEnabled: Option<bool>,
    days: Option<seq<int>>,
    hour: Option<int>,
    minute: Option<int>,
    lastRunKey: Option<string>,
    dryRun: Option<bool>)

  datatype AppRecord = AppRecord(tickSeconds: Option<int>, timeoutSeconds: Option<int>)

  datatype ConfigRecord = ConfigRecord(
    app: Option<AppRecord>, targets: Option<seq<TargetRecord>>, jobs: Option<seq<JobRecord>>)

  /** dict.get(key, default) */
  function Get<T>(o: Option<T>, default: T): T {
    if o.Some? then o.value else default
  }

  function LoadTarget(t: TargetRecord): Target {
    Target(Get(t.name, "Target"), Get(t.host, ""), Get(t.port, 21),
           Get(t.username, ""), Get(t.password, ""), Get(t.tls, false))
  }

  function LoadJob(j: JobRecord): Job {
    Job(Get(j.name, "Job"), Get(j.enabled, true), Get(j.mode, "local"),
        Get(j.localFolders, []), Get(j.ftpTarget, ""), Get(j.ftpFolders, []),
        Get(j.excludeFiles, []), Get(j.excludeFolders, []),
        Get(j.scheduleEnabled, false), Get(j.days, AllDays), Get(j.hour, 0), Get(j.minute, 0),
        Get(j.lastRunKey, ""), Get(j.dryRun, true))
  }

  /** The target run_job connects to: the first one carrying the job's target name, or None. */
  function FindTarget(ts: seq<Target>, name: string): (r: Option<Target>)
    ensures r.None? <==> forall i | 0 <= i < |ts| :: ts[i].name != name
    ensures r.Some? ==> exists i | 0 <= i < |ts| :: ts[i] == r.value && FirstNamed(ts, name, i)
  {
    if ts == [] then None
    else if ts[0].name == name then Some(ts[0])
    else
      var r := FindTarget(ts[1..], name);
      if r.Some? then
        var i :| 0 <= i < |ts| - 1 && ts[1..][i] == r.value && FirstNamed(ts[1..], name, i);
        assert ts[i + 1] == r.value && FirstNamed(ts, name, i + 1);
        r
      else r
  }

  /** ts[i] is the first entry of ts named name. */
  predicate FirstNamed(ts: seq<Target>, name: string, i: nat)
    requires i < |ts|
  {
    ts[i].name == name && forall k | 0 <= k < i :: ts[k].name != name
  }

  /** load_state, followed by the App constructor reading tick_seconds and timeout_seconds. */
  function LoadState(c: ConfigRecord): State {
    var app := Get(c.app, AppRecord(None, None));
    var ts := Get(c.targets, []);
    var js := Get(c.jobs, []);
    State(Settings(Get(app.tickSeconds, 15), Get(app.timeoutSeconds, 25)),
          seq(|ts|, i requires 0 <= i < |ts| => LoadTarget(ts[i])),
          seq(|js|, i requires 0 <= i < |js| => LoadJob(js[i])))
  }

  /** save_state: every field written out. */
  function TargetRecordOf(t: Target): TargetRecord {
    TargetRecord(Some(t.name), Some(t.host), Some(t.port), Some(t.username), Some(t.password), Some(t.tls))
  }

  function JobRecordOf(j: Job): JobRecord {
    JobRecord(Some(j.name), Some(j.enabled), Some(j.mode), Some(j.localFolders), Some(j.ftpTarget),
              Some(j.ftpFolders), Some(j.excludeFiles), Some(j.excludeFolders), Some(j.scheduleEnabled),
              Some(j.days), Some(j.hour), Some(j.minute), Some(j.lastRunKey), Some(j.dryRun))
  }

  function RecordOf(s: State): ConfigRecord {
    ConfigRecord(Some(AppRecord(Some(s.settings.tick), Some(s.settings.timeout))),
                 Some(seq(|s.targets|, i requires 0 <= i < |s.targets| => TargetRecordOf(s.targets[i]))),
                 Some(seq(|s.jobs|, i requires 0 <= i < |s.jobs| => JobRecordOf(s.jobs[i]))))
  }

  /** Loading what save_state wrote gives back the same state: nothing is re-validated on load. */
  lemma LoadSaved(s: State)
    ensures LoadState(RecordOf(s)) == s
  {
    var l := LoadState(RecordOf(s));
    assert l.targets == s.targets;
    assert l.jobs == s.jobs;
  }

  /** The defaults load_state fills in for a job or target missing every field. */
  lemma LoadDefaults(j: JobRecord, t: TargetRecord)
    requires j == JobRecord(None, None, None, None, None, None, None, None, None, None, None, None, None, None)
    requires t == TargetRecord(None, None, None, None, None, None)
    ensures LoadJob(j) == Job("Job", true, "local", [], "", [], [], [], false, AllDays, 0, 0, "", true)
    ensures LoadTarget(t) == Target("Target", "", 21, "", "", false)
    ensures LoadState(ConfigRecord(None, None, None)) == State(Settings(15, 25), [], [])
  {
  }

  /** default_config, the document written when no configuration file exists. */
  function DefaultConfig(): ConfigRecord {
    ConfigRecord(
      Some(AppRecord(Some(15), Some(25))),
      Some([TargetRecord(Some("MyServerFTP"), Some("FTP.HOST.COM"), Some(21), Some("username"),
                         Some("password"), Some(false))]),
      Some([JobRecord(Some("Local Logs (example)"), Some(true), Some("local"),
                      Some(["C:/path/to/logs", "C:/path/to/other/logs"]), Some("MyServerFTP"),
                      Some(["/dayzstandalone/logs"]), Some(["*.json", "*.cfg", "keep_me.txt"]),
                      Some(["config", "settings"]), Some(false), Some(AllDays), Some(3), Some(0),
                      Some(""), Some(true))]))
  }

  /** The first start: one local example job that is not scheduled and runs dry, and one target. */
  lemma DefaultConfigLoads()
    ensures var s := LoadState(DefaultConfig());
      && s.settings == Settings(15, 25) && |s.targets| == 1 && |s.jobs| == 1
      && s.jobs[0].mode == "local" && s.jobs[0].dryRun && !s.jobs[0].scheduleEnabled
      && s.jobs[0].ftpTarget == s.targets[0].name
  {
  }

  // ---------------------------------------------------------------------------------------
  // The job form

  /** What the job form holds: text fields, check boxes and the seven day boxes. */
  datatype Form = Form(
    name: string,
    enabled: bool,
    mode: string,
    localText: string,
    ftpTarget: string,
    ftpText: string,
    excludeFilesText: string,
    excludeFoldersText: string,
    scheduleEnabled: bool,
    dayChecks: seq<bool>,
    hourText: string,
    minuteText: string,
    dryRun: bool)

  /** on_job_select: the form showing job j. The folder text boxes hand back their text with a
      newline appended. */
  function FormOf(j: Job): (f: Form)
    ensures |f.dayChecks| == 7
  {
    Form(j.name, j.enabled, j.mode, Text.JoinList(j.localFolders, '\n') + "\n", j.ftpTarget,
         Text.JoinList(j.ftpFolders, '\n') + "\n", Text.JoinList(j.excludeFiles, ','),
         Text.JoinList(j.excludeFolders, ','), j.scheduleEnabled,
         DayChecks(j.days), Text.ShowInt(j.hour), Text.ShowInt(j.minute), j.dryRun)
  }

  /** The seven day boxes: box i is checked when day i is in the list. */
  function DayChecks(days: seq<int>): (checks: seq<bool>)
    ensures |checks| == 7 && forall i | 0 <= i < 7 :: checks[i] == (i in days)
  {
    seq(7, i requires 0 <= i < 7 => i in days)
  }

  predicate Increasing(xs: seq<int>) {
    forall i, k | 0 <= i < k < |xs| :: xs[i] < xs[k]
  }

  /** The indices from i on whose box is checked, in order. */
  function Checked(checks: seq<bool>, i: nat): (r: seq<int>)
    requires i <= |checks|
    ensures Increasing(r)
    ensures forall d | d in r :: i <= d < |checks| && checks[d]
    ensures forall d | i <= d < |checks| && checks[d] :: d in r
    decreases |checks| - i
  {
    if i == |checks| then []
    else
      var rest := Checked(checks, i + 1);
      if checks[i] then
        var r := [i] + rest;
        assert Increasing(r) by {
          forall a, b | 0 <= a < b < |r| ensures r[a] < r[b] {
            assert r[b] == rest[b - 1] && rest[b - 1] in rest;
            if a > 0 { assert r[a] == rest[a - 1]; }
          }
        }
        r
      else rest
  }

  /** [i for i in range(7) if checked[i]] or all seven days. */
  function CheckedDays(checks: seq<bool>): (days: seq<int>)
    requires |checks| == 7
    ensures days != [] && Increasing(days)
    ensures forall d | d in days :: 0 <= d < 7
    ensures (exists i | 0 <= i < 7 :: checks[i]) ==> forall d :: d in days <==> 0 <= d < 7 && checks[d]
    ensures (forall i | 0 <= i < 7 :: !checks[i]) ==> days == AllDays
  {
    var c := Checked(checks, 0);
    if c == [] then
      assert forall i | 0 <= i < 7 :: !checks[i] by {
        forall i | 0 <= i < 7 ensures !checks[i] {
          assert checks[i] ==> i in c;
        }
      }
      AllDays
    else
      assert c[0] in c;
      c
  }

  /** (text.strip() or fallback) */
  function TrimOr(text: string, fallback: string): (r: string)
    ensures fallback != "" ==> r != ""
  {
    var t := Glob.Trim(text);
    if t == "" then fallback else t
  }

  /** job_save for the job current: None when the hour or minute does not parse or is out of
      range (the form shows an error and nothing changes). */
  function SaveForm(f: Form, current: Job): (r: Option<Job>)
    requires |f.dayChecks| == 7
    ensures r.Some? <==> ValidTime(Text.IntField(f.hourText, 0), Text.IntField(f.minuteText, 0))
    ensures r.Some? ==>
      && 0 <= r.value.hour <= 23 && 0 <= r.value.minute <= 59
      && r.value.days != [] && Increasing(r.value.days) && (forall d | d in r.value.days :: 0 <= d < 7)
      && r.value.lastRunKey == current.lastRunKey
      && r.value.mode != ""
  {
    var hh := Text.IntField(f.hourText, 0);
    var mm := Text.IntField(f.minuteText, 0);
    if !ValidTime(hh, mm) then None
    else
      var j := Build(f, current, hh.value, mm.value);
      assert j.days == CheckedDays(f.dayChecks);
      assert j.mode == TrimOr(f.mode, "local");
      Some(j)
  }

  /** The job job_save builds from the form once the hour and minute are known. */
  function Build(f: Form, current: Job, hour: int, minute: int): Job
    requires |f.dayChecks| == 7
  {
    Job(TrimOr(f.name, current.name), f.enabled, TrimOr(f.mode, "local"),
        Text.ParseLines(f.localText), Glob.Trim(f.ftpTarget), Text.ParseLines(f.ftpText),
        Text.ParseCsv(f.excludeFilesText), Text.ParseCsv(f.excludeFoldersText),
        f.scheduleEnabled, CheckedDays(f.dayChecks), hour, minute, current.lastRunKey, f.dryRun)
  }

  /** Both numbers parse, the hour is 0-23 and the minute 0-59. */
  predicate ValidTime(hh: Option<int>, mm: Option<int>) {
    hh.Some? && mm.Some? && 0 <= hh.value <= 23 && 0 <= mm.value <= 59
  }

  /** A job the form can show and save back unchanged. */
  predicate Shown(j: Job) {
    && j.name != "" && Glob.Trim(j.name) == j.name
    && Text.Clean(j.mode) && Glob.Trim(j.ftpTarget) == j.ftpTarget
    && (forall i | 0 <= i < |j.localFolders| :: Text.Clean(j.localFolders[i]) && Text.Free(j.localFolders[i], Text.LineBreaks))
    && (forall i | 0 <= i < |j.ftpFolders| :: Text.Clean(j.ftpFolders[i]) && Text.Free(j.ftpFolders[i], Text.LineBreaks))
    && (forall i | 0 <= i < |j.excludeFiles| :: Text.Clean(j.excludeFiles[i]) && Text.Free(j.excludeFiles[i], {','}))
    && (forall i | 0 <= i < |j.excludeFolders| :: Text.Clean(j.excludeFolders[i]) && Text.Free(j.excludeFolders[i], {','}))
    && j.days != [] && Increasing(j.days) && (forall d | d in j.days :: 0 <= d < 7)
    && 0 <= j.hour <= 23 && 0 <= j.minute <= 59
  }

  /** Selecting a job and saving the form without edits leaves the job as it was. */
  lemma SaveShownJob(j: Job)
    requires Shown(j)
    ensures SaveForm(FormOf(j), j) == Some(j)
  {
    var f := FormOf(j);
    Text.IntFieldOfShow(j.hour, 0);
    Text.IntFieldOfShow(j.minute, 0);
    assert ValidTime(Text.IntField(f.hourText, 0), Text.IntField(f.minuteText, 0));
    ShownLists(j);
    ShownDays(j.days);
    var b := Build(f, j, j.hour, j.minute);
    assert b.name == j.name && b.mode == j.mode && b.ftpTarget == j.ftpTarget;
  }

  lemma ShownLists(j: Job)
    requires Shown(j)
    ensures var f := FormOf(j);
      && Text.ParseLines(f.localText) == j.localFolders && Text.ParseLines(f.ftpText) == j.ftpFolders
      && Text.ParseCsv(f.excludeFilesText) == j.excludeFiles
      && Text.ParseCsv(f.excludeFoldersText) == j.excludeFolders
      && TrimOr(f.name, j.name) == j.name && TrimOr(f.mode, "local") == j.mode
      && Glob.Trim(f.ftpTarget) == j.ftpTarget
  {
    Text.ParseLinesOfText(j.localFolders);
    Text.ParseLinesOfText(j.ftpFolders);
    Text.ParseCsvOfJoin(j.excludeFiles);
    Text.ParseCsvOfJoin(j.excludeFolders);
  }

  /** Showing a list of days in the seven boxes and reading the boxes back gives the list, when it
      is a non-empty increasing list of weekday numbers. */
  lemma ShownDays(days: seq<int>)
    requires days != [] && Increasing(days) && (forall d | d in days :: 0 <= d < 7)
    ensures CheckedDays(DayChecks(days)) == days
  {
    var checks := DayChecks(days);
    assert days[0] in days;
    assert 0 <= days[0] < 7 && checks[days[0]];
    var c := CheckedDays(checks);
    forall x ensures x in c <==> x in days {
      if x in days {
        assert 0 <= x < 7 && checks[x];
      }
    }
    IncreasingSame(c, days);
  }

  /** Two increasing lists with the same members are the same list. */
  lemma {:induction false} IncreasingSame(a: seq<int>, b: seq<int>)
    requires Increasing(a) && Increasing(b)
    requires forall x :: x in a <==> x in b
    ensures a == b
    decreases |a|
  {
    assert b != [] ==> b[0] in b;
    if a != [] {
      assert a[0] in a;
      assert a[0] in b;
      assert b[0] in b;
      assert b[0] in a;
      assert a[0] == b[0] by {
        var i :| 0 <= i < |a| && a[i] == b[0];
        var k :| 0 <= k < |b| && b[k] == a[0];
        assert a[0] <= a[i] && b[0] <= b[k];
      }
      forall x ensures x in a[1..] <==> x in b[1..] {
        InTail(a, x);
        InTail(b, x);
      }
      IncreasingSame(a[1..], b[1..]);
      assert a == [a[0]] + a[1..] && b == [b[0]] + b[1..];
    }
  }

  lemma InTail(a: seq<int>, x: int)
    requires Increasing(a) && a != []
    ensures x in a[1..] <==> x in a && x != a[0]
  {
    if x in a[1..] {
      var i :| 0 <= i < |a[1..]| && a[1..][i] == x;
      assert a[i + 1] == x;
    }
    if x in a && x != a[0] {
      var i :| 0 <= i < |a| && a[i] == x;
      assert a[1..][i - 1] == x;
    }
  }

  // ---------------------------------------------------------------------------------------
  // Settings

  /** The floor settings_save puts under tick_seconds and timeout_seconds: max(5, x). */
  function Clamp(x: int): (r: int)
    ensures r >= 5 && (x >= 5 ==> r == x)
  {
    if x < 5 then 5 else x
  }

  /** settings_save: None when either number fails to parse (nothing is stored). */
  function SaveSettings(tickText: string, timeoutText: string): (r: Option<Settings>)
    ensures r.Some? <==> Text.IntField(tickText, 15).Some? && Text.IntField(timeoutText, 25).Some?
    ensures r.Some? ==> r.value.tick >= 5 && r.value.timeout >= 5
  {
    var t := Text.IntField(tickText, 15);
    var o := Text.IntField(timeoutText, 25);
    if t.None? || o.None? then None else Some(Settings(Clamp(t.value), Clamp(o.value)))
  }

  /** The settings form shows the numbers with str(); saving it unedited keeps settings that are
      already at least 5, and raises smaller ones to 5. Empty fields save the defaults. */
  lemma SaveShownSettings(s: Settings)
    ensures SaveSettings(Text.ShowInt(s.tick), Text.ShowInt(s.timeout)) == Some(Settings(Clamp(s.tick), Clamp(s.timeout)))
    ensures SaveSettings("", "") == Some(Settings(15, 25))
  {
    Text.IntFieldOfShow(s.tick, 15);
    Text.IntFieldOfShow(s.timeout, 25);
  }

  /** _tick re-arms its timer after max(5, tick_seconds) seconds, in milliseconds: at least five
      seconds even for a stored value below the floor, which load_state does not enforce. */
  function TickDelay(tick: int): (ms: int)
    ensures ms >= 5000 && (tick >= 5 ==> ms == tick * 1000)
  {
    Clamp(tick) * 1000
  }
}
