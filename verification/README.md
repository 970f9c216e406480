# Scheduled cleanup of local and FTP folders — a Dafny model

The application keeps a list of cleanup jobs in a JSON configuration file. A job is either
local or ftp. A local job cleans folders on the disk. An ftp job cleans folders on an FTP
server, one of the configured targets.

Cleaning a folder walks its tree. It deletes every file whose name matches none of the job's
exclude-file patterns, and it removes the directories that are empty by then. The folder itself
is never removed. A directory whose name matches an exclude-folder pattern is kept on both
sides. On the FTP side such a directory is also never entered. A dry run only lists and counts.

A timer ticks every few seconds while the scheduler runs. At each tick it fires the jobs whose
weekday, hour and minute match the clock. It stamps each fired job with the current minute, so
that the job fires at most once in that minute.

The model covers:

- the glob matching of names against patterns;
- the text handling of the forms and of remote paths;
- both folder walks, over an abstract file tree with a failure oracle;
- the FTP client session;
- the scheduler;
- the job and settings forms;
- loading the configuration.

Modules:

- `Glob` (glob.dfy): Python's `str.strip` and `fnmatch`, and `matches_any`.
- `Text` (text.dfy): comma and line splitting, remote root normalisation, the `list_dir` path
  and NLST basename, weekday names, and integer parsing.
- `Tree` (tree.dfy): a file tree as a map from paths (sequences of names) to file or directory.
  It also holds `Backend`, the class through which the walks list, delete and remove. A
  `Backend` keeps a log of every call made on it.
- `Cleanup` (cleanup.dfy): an order-independent description of one walk. It states which files
  and directories are removed and which are counted. Both walks are proved equal to it.
- `Walk`, `RemoteWalk`, `LocalWalk`: the shared phases, `walk_dir`, and `local_cleanup_folder`.
- `Config` (config.dfy): targets, jobs and settings; `load_state` defaults; the job and settings
  forms.
- `Schedule` (schedule.dfy): the clock reading, the minute key and the due check.
- `App` (app.dfy): the FTP client, `run_job`, `_run_due_jobs`, `_tick`, `job_save` and
  `settings_save`.
  `Perform` states what `run_job` does to the trees of the disk and the servers (a `Storage`
  value), and `PerformAll` runs a tick's fired jobs through it in order. `TickEffect` states what
  one tick fires, stamps and leaves in storage; the methods that run jobs are proved against
  these functions.

The clock, the disk and the network are parameters of the model:

- a tick receives a `Clock` reading;
- the application holds one `Backend` for the disk;
- the network is a map from each reachable host to the `Backend` of its FTP server.

A listing, delete or removal fails exactly on the paths named in that backend's `Faults`.

## Model

| member | source | states |
|---|---|---|
| Glob.Matches | app/main.py:72-80 | the loop over the patterns answers true exactly when some stripped, non-blank pattern matches the name |
| Glob.MatchesAnyIff | app/main.py:72-80 | a name matches a pattern list iff some single pattern hits it; blank patterns never hit |
| Glob.BlankPatternsIgnored | app/main.py:74-77 | adding a blank or whitespace-only pattern changes no answer, and an empty list matches nothing |
| Glob.TrimIdempotent | app/main.py:75 | stripping a stripped pattern changes nothing |
| Glob.PlainMatchesItself | app/main.py:78 | a pattern without wildcards matches exactly the name equal to it |
| Glob.StarSuffix | app/main.py:78 | `*` followed by a plain suffix matches every name ending in that suffix |
| Glob.StarMatchesAll | app/main.py:78 | `*` matches every name |
| Glob.QuestionMatchesOneChar | app/main.py:78 | `?` matches exactly the one-character names |
| Glob.JsonExample | app/main.py:72-80 | with the pattern `*.json`, `a.json` is excluded and `b.log` is not |
| Glob.Trim | app/main.py:75 | stripping never grows a pattern and leaves no whitespace at either end |
| Glob.TrimBlank | app/main.py:75-77 | a pattern strips to nothing iff it is all whitespace |
| Text.Fields | app/main.py:40-41 | splitting gives at least one piece, and no piece holds a separator |
| Text.FieldsOfJoin | app/main.py:40-41 | splitting at a separator undoes joining with it |
| Text.JoinOfFields | app/main.py:40-41 | joining the pieces back with the separator gives the original text |
| Text.Keep | app/main.py:41 | the strip-and-drop-blank filter never grows the list |
| Text.KeepIsClean | app/main.py:41 | every item kept is stripped and non-blank |
| Text.ParseCsvItems | app/main.py:40-41 | `parse_csv` yields stripped, non-blank items without commas |
| Text.ParseCsvOfJoin | app/main.py:40-41 | `parse_csv` of the comma-joined clean items gives back those items |
| Text.ParseLinesOfText | app/main.py:840-841 | splitting the text box by lines and dropping blanks gives back the folders shown in it, one per line |
| Text.NormRemote | app/main.py:43-44 | every backslash becomes a slash, and nothing else changes |
| Text.RStrip | app/main.py:174 | the result is the longest prefix not ending in the stripped character, with only that character cut |
| Text.RemoteRoot | app/main.py:284-286 | the normalised root is non-empty and starts with a slash |
| Text.RemoteRootIsRoot | app/main.py:284-286 | the normalised root starts with `/`, has no backslash and ends in `/` only when it is `/` |
| Text.RemoteRootIdempotent | app/main.py:284-286 | normalising a normalised root changes nothing |
| Text.ListDirOfRoot | app/main.py:174 | `rstrip("/") or "/"` leaves a normalised root as it is |
| Text.ListDirPath | app/main.py:174 | the path `list_dir` lists is never empty |
| Text.NlstBasename | app/main.py:198-200 | the basename taken from an NLST line holds no slash |
| Text.NlstKeptNames | app/main.py:197-200 | the NLST filter drops an answer iff it names the directory itself or its parent, for bare names and full paths alike |
| Text.NlstBasenameOfPath | app/main.py:198-200 | bare names, full paths and both with a trailing slash all give the same basename |
| Text.ChildPathString | app/main.py:301 | the child path `walk_dir` builds by string is the path of the child |
| Text.ParsePathString | app/main.py:284-286 | a normalised root is the path string of the names it holds |
| Text.ParseOfPathString | app/main.py:284-286 | reading back the path string of valid names gives those names |
| Text.PathStringInjective | app/main.py:301 | two name paths have the same string iff they are equal |
| Text.LocalPath | app/main.py:592 | a local folder splits into non-empty names without slashes, dropping `.` |
| Text.WeekdayName | app/main.py:37-38 | every index names a weekday |
| Text.WeekdayNamePeriodic | app/main.py:37-38 | the name repeats every seven days, and the seven days of a week have distinct names |
| Text.ParseShowInt | app/main.py:830-831 | `int(str(n)) == n` for every integer |
| Text.IntFieldOfShow | app/main.py:1034-1035 | a field showing `str(n)` reads back as n |
| Text.IntFieldIsParse | app/main.py:830-831 | a form number is `int((text or str(default)).strip())` |
| Tree.ListingEmpty | app/main.py:168-215 | a listing is empty iff the directory has no entries |
| Tree.NothingBelowFileOrEmptyDir | app/main.py:168-215 | only a non-empty directory has anything below it |
| Tree.Backend.List | app/main.py:168-215 | a listing fails exactly for a missing path, a file or a faulty path; otherwise it lists the directory's children with their kinds, each once |
| Tree.Backend.DeleteFile | app/main.py:217-219 | a delete succeeds iff the path is a file and not faulty, and then removes exactly that path |
| Tree.Backend.RemoveDir | app/main.py:221-223 | a removal of an empty directory succeeds iff it is not faulty, and then removes exactly that path |
| Cleanup.EffectBounds | app/main.py:227-336 | a walk removes only existing entries strictly below the job's root, so never the root itself; a dry run removes nothing; no removed file matches exclude_files; no removed entry is one whose delete or rmdir fails |
| LocalWalk.LocalCleanupFolder | app/main.py:227-274 | a missing or non-directory folder gives (0, 0) with nothing touched; otherwise the walk removes exactly the described effect, returns its two counts and makes only allowed calls |
| RemoteWalk.WalkDir | app/main.py:288-333 | the remote walk removes exactly the described effect, counts it, and makes only allowed calls: none under an excluded directory, only listings on a dry run |
| Walk.LoggedRespects | app/main.py:227-336 | every call a walk makes is a listing on a dry run, and never a delete of an excluded file name |
| Walk.RespectsTrans | app/main.py:588-617 | that guarantee carries over a sequence of walks |
| App.Roots | app/main.py:590-603 | a job walks one root per folder of its list |
| App.PassShrinks | app/main.py:588-617 | the folders of a job together only remove entries, never change one, and a dry run changes nothing |
| App.PassRemovesOnly | app/main.py:588-617 | whatever a job removes lies below one of its roots, is a non-excluded file or a directory, and did not fail |
| App.FtpClient.constructor | app/main.py:143-146 | a new client has no session |
| App.FtpClient.Connect | app/main.py:148-154 | connecting succeeds iff the host is reachable, and then holds the session to that server |
| App.FtpClient.Close | app/main.py:156-166 | after close the client has no session |
| App.FtpCleanupFolder | app/main.py:276-336 | the walk starts at the normalised root, removes exactly the described effect, counts it and makes only allowed calls |
| App.CleanLocalFolders | app/main.py:590-595 | the local totals are the sums of the folder walks, and the disk ends as the folders' effects applied in turn |
| App.CleanFtpFolders | app/main.py:606-609 | the same for the folders of an ftp job on the connected server |
| App.App.constructor | app/main.py:429-435 | the application starts stopped with the loaded configuration, which is also what is stored |
| App.Perform | app/main.py:588-617 | a job completes iff it does not raise: a local job always completes, an ftp job raises iff its target is unknown or its host unreachable, any other mode raises; a raising job leaves all storage as it was; a local job touches only the disk, any other only servers |
| App.PerformFtp | app/main.py:600-615 | once the target is known, the ftp branch completes iff a server answers at its host, and touches only the servers |
| App.DryRunPerformsNothing | app/main.py:588-617 | a dry-run job leaves every tree as it was, whatever its mode |
| App.PerformAll | app/main.py:566-581 | running the fired jobs one after another keeps the set of servers |
| App.DryRunsPerformNothing | app/main.py:566-581 | a tick whose fired jobs are all dry runs leaves every tree as it was |
| App.FiredStep | app/main.py:566-581 | passing job i appends i to the fired list iff job i is due; the list stays a prefix of the minute's due jobs; it still lists only jobs that did not raise when job i did not |
| App.TickLeavesNothingDue | app/main.py:566-579 | a tick in the same minute after a tick that did not fail finds nothing due; after a failed tick, only the due jobs past the one that raised are still due |
| App.Open | app/main.py:143-154 | a new client's session is open iff a server answers at the target's host, and then it is that server's |
| App.App.RunJob | app/main.py:588-617 | local jobs sum their folder walks; an ftp job with an unknown target fails before connecting; an unreachable host fails without walking; otherwise the server ends as the walks leave it and the client is closed; another mode fails and changes nothing; outcome and storage are Perform's |
| App.App.RunLocal | app/main.py:591-598 | the disk ends as the job's folder walks leave it, the totals are theirs, and the servers are untouched; outcome and storage are Perform's |
| App.App.RunFtp | app/main.py:600-615 | connect, then walk, then close, so the session is closed after every connected run; no other server is touched; outcome and storage are PerformFtp's |
| App.App.Session | app/main.py:606-614 | the walks run on the open session's server and the session is then closed; only that server's tree changes |
| App.App.RunDueJobs | app/main.py:560-584 | fired lists the jobs run: without a failure, exactly the minute's due jobs, in order, none of which raised; with one, a non-empty prefix of them whose last raised and whose others did not; every fired job is stamped with the minute key, the jobs after a raising one are not; storage ends as the fired jobs leave it, run in order; nothing fired means no tree is touched; the configuration is saved iff jobs fired and none raised |
| App.App.FireDue | app/main.py:563-582 | the loop fires the due jobs in order, stops at the first that raises and returns the jobs stamped so far, with the same guarantees about fired, failed and storage |
| App.App.FireNext | app/main.py:566-581 | one turn of the loop: job i runs iff it is due, is then stamped, and the fired list and storage follow; a raise can only come from a job that ran and raised |
| App.App.FireIfDue | app/main.py:565-579 | a job runs iff it is due; a job that runs completes iff it does not raise and leaves storage as Perform does; a job that does not run touches no storage |
| App.App.Commit | app/main.py:580-584 | the stamped jobs become the job list, and the configuration is saved iff asked; no tree changes |
| App.App.Save | app/main.py:421-424 | the stored configuration becomes the current state; nothing else changes |
| App.App.Tick | app/main.py:550-558 | a running scheduler does what RunDueJobs does, a raising job being caught; a stopped one fires nothing and changes nothing; the scheduler's state, settings and targets stay; the timer is re-armed after at least five seconds |
| App.App.JobSave | app/main.py:824-865 | with no job selected nothing changes; otherwise the job is replaced iff the hour and minute are valid, and the result is saved |
| App.App.SettingsSave | app/main.py:1031-1046 | the settings change iff both numbers parse, both end at least 5, and they are saved |
| Config.FindTarget | app/main.py:598 | the target found is the first with the job's target name, and none is found iff no target has that name |
| Config.LoadSaved | app/main.py:378-424 | loading what `save_state` wrote gives back the same targets, jobs and settings |
| Config.LoadDefaults | app/main.py:400-416 | the default of every missing field, including tick 15 and timeout 25 |
| Config.DefaultConfigLoads | app/main.py:340-376 | the first configuration holds one target and one unscheduled dry-run local job that points at it |
| Config.FormOf | app/main.py:765-790 | the form shows seven day boxes |
| Config.DayChecks | app/main.py:776-777 | day box i is checked iff day i is in the job's days |
| Config.Checked | app/main.py:838 | the checked indices come in increasing order, and exactly those are listed |
| Config.CheckedDays | app/main.py:838 | the saved days are exactly the checked boxes, in order, or all seven days when none is checked |
| Config.TrimOr | app/main.py:843-849 | a non-empty fallback gives a non-empty field |
| Config.SaveForm | app/main.py:824-865 | the form saves iff the hour is 0-23 and the minute 0-59; the job saved has those numbers, the checked days, the trimmed fields, the split lists and the old minute key |
| Config.SaveShownJob | app/main.py:765-790 | saving the form of a job unedited gives back that job |
| Config.ShownDays | app/main.py:776-777 | the boxes of a valid day list give that list back |
| Config.Clamp | app/main.py:1039-1040 | the result is at least 5 and equals any input that is already at least 5 |
| Config.SaveSettings | app/main.py:1031-1046 | the settings save iff both fields parse, and both saved numbers are at least 5 |
| Config.SaveShownSettings | app/main.py:1031-1046 | saving the shown settings unedited keeps them, raising any below 5 to 5; empty fields save 15 and 25 |
| Config.TickDelay | app/main.py:558 | the re-arm delay is at least five seconds, and is the tick itself for ticks of 5 or more |
| Schedule.Pad | app/main.py:562 | each padded field has the given width and only digits |
| Schedule.PadValue | app/main.py:562 | a padded field reads back as its number |
| Schedule.MinuteKeyInjective | app/main.py:562 | two clock readings share a key iff they are in the same calendar minute |
| Schedule.DueFrom | app/main.py:563-582 | exactly the due jobs are listed |
| Schedule.DueFromIncreasing | app/main.py:563-582 | the due jobs are listed in configuration order, each once |
| Schedule.NothingDueTwice | app/main.py:560-584 | after a full tick, a second tick in the same minute fires nothing |
| Schedule.StampedPrefix | app/main.py:560-584 | after a tick that stopped early, the jobs it reached are not due again in that minute and the rest are as due as before |
| Schedule.StampBlocksOnlyItsMinute | app/main.py:566-572 | a stamped job is due at a later reading iff its guards hold and the minute differs |
| Schedule.MondayExample | app/main.py:566-572 | a Monday 03:00 job fires on Monday at 03:00, not at 03:01 and not on Tuesday |

## Left out

- The Tk user interface is not modelled: widgets, message boxes, list refreshes, the dashboard,
  `_open_safe`/`open_path` and `toggle_scheduler`. Only the state the job and settings forms
  hand over is modelled.
- `run_selected_job`, `job_new`, `job_delete`, `add_local_folder`, editing and testing FTP
  targets (`ftp_save`, `ftp_test`) and `main` are not modelled.
- The logger and every message it writes are not modelled. `now_stamp` is only used for those.
- JSON file I/O is not modelled. `load_json` and `save_json` become the `ConfigRecord` value,
  in which each field is present or absent.
- The `int()`/`bool()` coercions `load_state` applies to JSON values are not modelled: every
  field already has its type.
- ftplib itself is not modelled: the socket, login, TLS, port, timeout, `quit`/`close` failures,
  and MLSD with its NLST fallback. Connecting is "the host is reachable". The server's tree and
  its failures are the `Backend`. From NLST only the basename string logic is kept
  (`Text.NlstBasename`).
- `pathlib` is not modelled: `expanduser`, relative paths and Windows drive letters and
  separators. A local folder is split at `/` into names (`Text.LocalPath`).
- Text.ParsePath and Text.LocalPath take a folder name by name. `//`, `.` and `..` in a remote
  folder, and `..` in a local one, are not resolved. Such a folder names no entry of the model's
  tree, so its walk finds nothing; a real FTP server or operating system would resolve it.
- Text.ParseInt accepts an optional `+` or `-` sign and ASCII digits. Python's `int()` also
  accepts underscores between digits and non-ASCII digits; those are not modelled.
- Schedule.MinuteKey pads the year to four digits. Some platforms' `strftime("%Y")` do not pad
  years below 1000.
- Glob.Compile parses a class like `[z-a!]` into ranges greedily. Python's fnmatch merges an
  empty range with the next chunk here; that corner is not modelled. Case folding (`normcase`
  on Windows) is not modelled either.
- The source catches every exception inside a walk. In the model a backend operation reports
  failure as a value, and a failed listing, delete or removal skips only that entry. Other
  exceptions (a permission error raised by `os.walk` itself, say) are not modelled.
- That a second cleanup run changes nothing is not proved.
- RunDueJobs: `datetime.now()` becomes the `Clock` parameter. Concurrency between the timer and
  the UI thread is not modelled.

Where the code behaves in ways easy to misread, the model follows the code:

- An empty `days` list loaded from the file stays empty, and such a job never fires. Only
  `job_save` turns "no day checked" into all seven days.
- `_run_due_jobs` stamps and runs each job inside `try`/`finally` without `except`. A job that
  raises is stamped, and it ends the tick: later due jobs wait for the next tick, and nothing is
  saved. `App.App.RunDueJobs` states this.
- `run_job` calls `connect` outside its `try`, so a failed connect does not reach `close`.
- `load_state` does not raise `tick_seconds` or `timeout_seconds` to 5. Only `settings_save`
  and the timer's re-arm (`max(5, …)`) do.
- The local walk (`os.walk`) enters excluded directories and deletes files in them; it only
  refuses to remove them. The remote walk never enters them. Both asymmetries are kept.
