/** The application object: its jobs, targets and settings, the runner that carries out one job
    against the local disk or an FTP server, the scheduler tick that fires the due jobs, and the
    two forms that edit a job and the settings. */
module App {
  import opened Tree
  import opened Cleanup
  import opened Config
  import opened Schedule
  import Walk
  import RemoteWalk
  import LocalWalk
  import Text
  import Glob

  /** How run_job ends: with the job's totals, or with the error it raises. */
  datatype Outcome =
    | Done(files: nat, dirs: nat)
    | TargetNotFound(target: string)
    | ConnectFailed(host: string)
    | UnknownMode(mode: string)

  function PolicyOf(j: Job): Policy {
    Policy(j.excludeFiles, j.excludeFolders, j.dryRun)
  }

  /** The path the remote walk of one configured folder starts at. */
  function RemoteRootPath(folder: string): Path {
    Text.ParsePath(Text.RemoteRoot(folder))
  }

  /** The paths the walks of a job start at, one per configured folder, in order. */
  function Roots(side: Side, folders: seq<string>): (roots: seq<Path>)
    ensures |roots| == |folders|
  {
    seq(|folders|, i requires 0 <= i < |folders| =>
      if side == Local then Text.LocalPath(folders[i]) else RemoteRootPath(folders[i]))
  }

  /** The walks of one job over its folders in order, each on the tree the previous one left:
      the tree at the end and the summed file and directory counts. */
  function Pass(side: Side, p: Policy, faults: Faults, roots: seq<Path>, t: Fs): (Fs, nat, nat) {
    if roots == [] then (t, 0, 0)
    else
      var r := Run(side, roots[0], p, faults);
      assert roots[0][..|roots[0]|] == roots[0];
      var rest := Pass(side, p, faults, roots[1..], t - Effect(r, t, roots[0]));
      (rest.0, |FilesCounted(r, t, roots[0])| + rest.1, |DirsCounted(r, t, roots[0])| + rest.2)
  }

  /** A job's walks only remove entries, and a dry run removes nothing. */
  lemma {:induction false} PassShrinks(side: Side, p: Policy, faults: Faults, roots: seq<Path>, t: Fs)
    ensures var e := Pass(side, p, faults, roots, t).0;
      e.Keys <= t.Keys && (forall q | q in e :: e[q] == t[q]) && (p.dryRun ==> e == t)
  {
    if roots != [] {
      var r := Run(side, roots[0], p, faults);
      assert roots[0][..|roots[0]|] == roots[0];
      EffectBounds(r, t, roots[0]);
      PassShrinks(side, p, faults, roots[1..], t - Effect(r, t, roots[0]));
    }
  }

  /** Whatever a job's walks remove lies strictly below one of the job's folders, is not a file
      whose name matches exclude_files, and is not an entry whose delete or rmdir fails. */
  lemma {:induction false} PassRemovesOnly(side: Side, p: Policy, faults: Faults, roots: seq<Path>, t: Fs)
    ensures var e := Pass(side, p, faults, roots, t).0;
      forall q | q in t && q !in e :: Removable(p, faults, roots, t, q)
  {
    if roots != [] {
      var r := Run(side, roots[0], p, faults);
      assert roots[0][..|roots[0]|] == roots[0];
      var t1 := t - Effect(r, t, roots[0]);
      EffectBounds(r, t, roots[0]);
      PassRemovesOnly(side, p, faults, roots[1..], t1);
      var e := Pass(side, p, faults, roots, t).0;
      forall q | q in t && q !in e ensures Removable(p, faults, roots, t, q) {
        if q !in t1 {
          assert Below(roots[0], q);
        } else {
          assert Removable(p, faults, roots[1..], t1, q);
          var i :| 0 <= i < |roots[1..]| && Below(roots[1..][i], q);
          assert Below(roots[i + 1], q);
        }
      }
    }
  }

  /** q may disappear during a job over roots that starts from tree t. */
  ghost predicate Removable(p: Policy, faults: Faults, roots: seq<Path>, t: Fs, q: Path)
    requires q in t
  {
    && (exists i | 0 <= i < |roots| :: Below(roots[i], q))
    && (t[q] == File ==> |q| > 0 && !Glob.MatchesAny(q[|q| - 1], p.excludeFiles) && q !in faults.delete)
    && (t[q] == Dir ==> q !in faults.rmdir)
  }

  /** The trees of the disk and of every FTP server at one moment. */
  datatype Storage = Storage(disk: Fs, servers: map<Backend, Fs>)

  /** The trees of disk and of each of servers now. */
  ghost function TreesOf(disk: Backend, servers: set<Backend>): Storage
    reads disk, servers
  {
    Storage(disk.tree, map s | s in servers :: s.tree)
  }

  /** The trees of disk and servers are before's, when each of them still has the tree it had there. */
  lemma TreesAre(disk: Backend, servers: set<Backend>, before: Storage)
    requires disk.tree == before.disk && before.servers.Keys == servers
    requires forall s | s in servers :: s.tree == before.servers[s]
    ensures TreesOf(disk, servers) == before
  {
  }

  /** The servers' trees, when every server but one still has the tree it had in before. */
  lemma ServerChanged(servers: set<Backend>, server: Backend, before: map<Backend, Fs>)
    requires server in servers && before.Keys == servers
    requires forall s | s in servers && s != server :: s.tree == before[s]
    ensures TreesOf(server, servers).servers == before[server := server.tree]
  {
  }

  /** Every reachable host's server has a tree in st. */
  predicate Covers(network: map<string, Backend>, st: Storage) {
    forall h | h in network :: network[h] in st.servers
  }

  /** run_job raises: an ftp job whose target is not configured or whose host does not answer,
      or a job whose mode is neither local nor ftp. A local job never raises. */
  predicate RunRaises(j: Job, targets: seq<Target>, network: map<string, Backend>) {
    && j.mode != "local"
    && (j.mode != "ftp" || FindTarget(targets, j.ftpTarget).None?
        || FindTarget(targets, j.ftpTarget).value.host !in network)
  }

  /** How run_job for j ends and what it leaves of storage st: a local job walks its folders on
      the disk, an ftp job walks its folders on the server of its target's host. */
  function Perform(j: Job, targets: seq<Target>, network: map<string, Backend>, diskFaults: Faults, st: Storage)
    : (r: (Outcome, Storage))
    requires Covers(network, st)
    ensures r.0.Done? <==> !RunRaises(j, targets, network)
    ensures !r.0.Done? ==> r.1 == st
    ensures r.1.servers.Keys == st.servers.Keys
    ensures j.mode == "local" ==> r.1.servers == st.servers
    ensures j.mode != "local" ==> r.1.disk == st.disk
  {
    if j.mode == "local" then
      var e := Pass(Local, PolicyOf(j), diskFaults, Roots(Local, j.localFolders), st.disk);
      (Done(e.1, e.2), st.(disk := e.0))
    else if j.mode == "ftp" then
      match FindTarget(targets, j.ftpTarget)
      case None => (TargetNotFound(j.ftpTarget), st)
      case Some(t) => PerformFtp(j, t, network, st)
    else (UnknownMode(j.mode), st)
  }

  /** The ftp branch of run_job once the target t is known: the connect fails when no server
      answers at t's host; otherwise the job's folders are walked on that server. */
  function PerformFtp(j: Job, t: Target, network: map<string, Backend>, st: Storage): (r: (Outcome, Storage))
    requires Covers(network, st)
    ensures r.0.Done? <==> t.host in network
    ensures !r.0.Done? ==> r.1 == st
    ensures r.1.disk == st.disk && r.1.servers.Keys == st.servers.Keys
  {
    if t.host !in network then (ConnectFailed(t.host), st)
    else
      var server := network[t.host];
      var e := Pass(Remote, PolicyOf(j), server.faults, Roots(Remote, j.ftpFolders), st.servers[server]);
      (Done(e.1, e.2), st.(servers := st.servers[server := e.0]))
  }

  /** A dry-run job leaves storage as it was, whatever its mode. */
  lemma DryRunPerformsNothing(j: Job, targets: seq<Target>, network: map<string, Backend>, diskFaults: Faults, st: Storage)
    requires Covers(network, st) && j.dryRun
    ensures Perform(j, targets, network, diskFaults, st).1 == st
  {
    if j.mode == "local" {
      PassShrinks(Local, PolicyOf(j), diskFaults, Roots(Local, j.localFolders), st.disk);
    } else if j.mode == "ftp" && FindTarget(targets, j.ftpTarget).Some? {
      var t := FindTarget(targets, j.ftpTarget).value;
      if t.host in network {
        var server := network[t.host];
        PassShrinks(Remote, PolicyOf(j), server.faults, Roots(Remote, j.ftpFolders), st.servers[server]);
        assert st.servers[server := st.servers[server]] == st.servers;
      }
    }
  }

  /** Every index in idx is below n. */
  predicate IndicesBelow(idx: seq<nat>, n: nat) {
    forall k | 0 <= k < |idx| :: idx[k] < n
  }

  /** None of the jobs at indices idx of jobs raises when run. */
  predicate NoneRaise(jobs: seq<Job>, idx: seq<nat>, targets: seq<Target>, network: map<string, Backend>)
    requires IndicesBelow(idx, |jobs|)
  {
    forall k | 0 <= k < |idx| :: !RunRaises(jobs[idx[k]], targets, network)
  }

  /** Going past job i of a tick: the fired list grows by i exactly when job i is due, stays a
      prefix of the due jobs, and still lists only jobs that did not raise when job i did not. */
  lemma FiredStep(jobs: seq<Job>, c: Clock, i: nat, fired: seq<nat>, targets: seq<Target>, network: map<string, Backend>)
    requires ValidClock(c) && i < |jobs| && IndicesBelow(fired, |jobs|)
    requires fired + DueFrom(jobs, c, i) == DueIndices(jobs, c)
    ensures var next := if Due(jobs[i], c) then fired + [i] else fired;
      && next + DueFrom(jobs, c, i + 1) == DueIndices(jobs, c)
      && |next| <= |DueIndices(jobs, c)| && DueIndices(jobs, c)[..|next|] == next
      && IndicesBelow(next, |jobs|) && next[..|fired|] == fired
      && (NoneRaise(jobs, fired, targets, network) && !RunRaises(jobs[i], targets, network) ==>
            NoneRaise(jobs, next, targets, network))
  {
    DueStep(jobs, c, i, fired);
  }

  /** The storage after the jobs at indices idx of jobs have run in that order from st. */
  function PerformAll(jobs: seq<Job>, idx: seq<nat>, targets: seq<Target>, network: map<string, Backend>,
                      diskFaults: Faults, st: Storage): (r: Storage)
    requires Covers(network, st) && IndicesBelow(idx, |jobs|)
    ensures r.servers.Keys == st.servers.Keys
    decreases |idx|
  {
    if idx == [] then st
    else
      var prev := PerformAll(jobs, idx[..|idx| - 1], targets, network, diskFaults, st);
      Perform(jobs[idx[|idx| - 1]], targets, network, diskFaults, prev).1
  }

  /** What one tick at c did to the job list jobs and to storage: fired lists the jobs it ran and
      failed tells whether the last of them raised; js is the job list afterwards and after the
      storage. Every due job runs, in configuration order, and is stamped with the minute key
      whether or not it raises; the tick stops at the first job that raises; storage ends as the
      fired jobs leave it, run in that order from before. */
  ghost predicate TickEffect(jobs: seq<Job>, c: Clock, targets: seq<Target>, network: map<string, Backend>,
                             diskFaults: Faults, before: Storage, after: Storage,
                             fired: seq<nat>, failed: bool, js: seq<Job>)
    requires ValidClock(c) && Covers(network, before)
  {
    && IndicesBelow(fired, |jobs|)
    && (!failed ==>
          && fired == DueIndices(jobs, c) && js == StampedUpTo(jobs, c, |jobs|)
          && NoneRaise(jobs, fired, targets, network))
    && (failed ==>
          && fired != [] && |fired| <= |DueIndices(jobs, c)| && fired == DueIndices(jobs, c)[..|fired|]
          && js == StampedUpTo(jobs, c, fired[|fired| - 1] + 1)
          && NoneRaise(jobs, fired[..|fired| - 1], targets, network)
          && RunRaises(jobs[fired[|fired| - 1]], targets, network))
    && after == PerformAll(jobs, fired, targets, network, diskFaults, before)
  }

  /** A tick repeated within the same minute fires nothing more after a tick that did not fail;
      after a failed tick only the due jobs past the one that raised are still due. */
  lemma TickLeavesNothingDue(jobs: seq<Job>, c: Clock, c2: Clock, targets: seq<Target>,
                             network: map<string, Backend>, diskFaults: Faults, before: Storage,
                             after: Storage, fired: seq<nat>, failed: bool, js: seq<Job>)
    requires ValidClock(c) && ValidClock(c2) && SameMinute(c, c2) && c2.weekday == c.weekday
    requires Covers(network, before)
    requires TickEffect(jobs, c, targets, network, diskFaults, before, after, fired, failed, js)
    ensures |js| == |jobs|
    ensures !failed ==> DueIndices(js, c2) == []
    ensures failed ==> forall k | 0 <= k < |js| :: Due(js[k], c2) == (fired[|fired| - 1] < k && Due(jobs[k], c2))
  {
    if failed {
      StampedPrefix(jobs, c, fired[|fired| - 1] + 1, c2);
    } else {
      NothingDueTwice(jobs, c, c2);
    }
  }

  /** Jobs that all run dry leave storage as it was. */
  lemma {:induction false} DryRunsPerformNothing(jobs: seq<Job>, idx: seq<nat>, targets: seq<Target>,
                                                 network: map<string, Backend>, diskFaults: Faults, st: Storage)
    requires Covers(network, st) && forall k | 0 <= k < |idx| :: idx[k] < |jobs| && jobs[idx[k]].dryRun
    ensures PerformAll(jobs, idx, targets, network, diskFaults, st) == st
    decreases |idx|
  {
    if idx != [] {
      DryRunsPerformNothing(jobs, idx[..|idx| - 1], targets, network, diskFaults, st);
      DryRunPerformsNothing(jobs[idx[|idx| - 1]], targets, network, diskFaults, st);
    }
  }

  /** One session with an FTP target. */
  class FtpClient {
    const target: Target
    var ftp: Option<Backend>

    constructor (t: Target)
      ensures target == t && ftp == None
    {
      target := t;
      ftp := None;
    }

    /** connect: opens a session with the server answering at the target's host; fails, leaving
        the client as it was, when none does. network maps each reachable host to its server. */
    method Connect(network: map<string, Backend>) returns (ok: bool)
      modifies this
      ensures ok <==> target.host in network
      ensures ftp == if ok then Some(network[target.host]) else old(ftp)
    {
      if target.host in network {
        ftp := Some(network[target.host]);
        return true;
      }
      return false;
    }

    /** close: quits the session, swallowing any failure, and forgets it. */
    method Close()
      modifies this
      ensures ftp == None
    {
      ftp := None;
    }
  }

  /** A new FTPClient for t, then connect: the session is open exactly when a server answers at
      t's host. */
  method Open(t: Target, network: map<string, Backend>) returns (client: FtpClient, ok: bool)
    ensures fresh(client) && client.target == t
    ensures ok <==> t.host in network
    ensures client.ftp == if ok then Some(network[t.host]) else None
  {
    client := new FtpClient(t);
    ok := client.Connect(network);
  }

  /** ftp_cleanup_folder: normalises the folder into an absolute root and walks the connected
      server from there. */
  method FtpCleanupFolder(cli: FtpClient, folder: string, p: Policy) returns (nf: nat, nd: nat)
    requires cli.ftp.Some? && cli.ftp.value.Valid()
    modifies cli.ftp.value
    ensures var b := cli.ftp.value; var root := RemoteRootPath(folder); var r := Run(Remote, root, p, b.faults);
      && b.Valid()
      && b.tree == old(b.tree) - Effect(r, old(b.tree), root)
      && nf == |FilesCounted(r, old(b.tree), root)| && nd == |DirsCounted(r, old(b.tree), root)|
      && Walk.Logged(r, root, old(b.calls), b.calls)
  {
    var b := cli.ftp.value;
    var root := RemoteRootPath(folder);
    var r := Run(Remote, root, p, b.faults);
    assert root[..|root|] == root;
    nf, nd := RemoteWalk.WalkDir(b, r, root, b.tree);
  }

  /** The local branch of run_job: local_cleanup_folder on each folder in turn, totals summed. */
  method CleanLocalFolders(disk: Backend, folders: seq<string>, p: Policy) returns (tf: nat, td: nat)
    requires disk.Valid()
    modifies disk
    ensures disk.Valid()
    ensures var e := Pass(Local, p, disk.faults, Roots(Local, folders), old(disk.tree));
      disk.tree == e.0 && tf == e.1 && td == e.2
    ensures Walk.Respects(p, old(disk.calls), disk.calls)
  {
    var roots := Roots(Local, folders);
    ghost var goal := Pass(Local, p, disk.faults, roots, disk.tree);
    tf, td := 0, 0;
    for k := 0 to |roots|
      invariant disk.Valid()
      invariant var e := Pass(Local, p, disk.faults, roots[k..], disk.tree);
        e.0 == goal.0 && e.1 + tf == goal.1 && e.2 + td == goal.2
      invariant Walk.Respects(p, old(disk.calls), disk.calls)
    {
      var r := Run(Local, roots[k], p, disk.faults);
      ghost var before := disk.calls;
      assert roots[k..][0] == roots[k] && roots[k..][1..] == roots[k + 1..];
      var f, d := LocalWalk.LocalCleanupFolder(disk, r);
      Walk.LoggedRespects(r, r.root, before, disk.calls);
      Walk.RespectsTrans(p, old(disk.calls), before, disk.calls);
      tf, td := tf + f, td + d;
    }
  }

  /** The ftp branch of run_job once connected: ftp_cleanup_folder on each folder in turn,
      totals summed. */
  method CleanFtpFolders(cli: FtpClient, folders: seq<string>, p: Policy) returns (tf: nat, td: nat)
    requires cli.ftp.Some? && cli.ftp.value.Valid()
    modifies cli.ftp.value
    ensures var server := cli.ftp.value;
      var e := Pass(Remote, p, server.faults, Roots(Remote, folders), old(server.tree));
      && server.Valid() && server.tree == e.0 && tf == e.1 && td == e.2
      && Walk.Respects(p, old(server.calls), server.calls)
  {
    var server := cli.ftp.value;
    var roots := Roots(Remote, folders);
    ghost var goal := Pass(Remote, p, server.faults, roots, server.tree);
    tf, td := 0, 0;
    for k := 0 to |roots|
      invariant server.Valid()
      invariant var e := Pass(Remote, p, server.faults, roots[k..], server.tree);
        e.0 == goal.0 && e.1 + tf == goal.1 && e.2 + td == goal.2
      invariant Walk.Respects(p, old(server.calls), server.calls)
    {
      ghost var before := server.calls;
      assert roots[k..][0] == roots[k] && roots[k..][1..] == roots[k + 1..];
      var f, d := FtpCleanupFolder(cli, folders[k], p);
      Walk.LoggedRespects(Run(Remote, roots[k], p, server.faults), roots[k], before, server.calls);
      Walk.RespectsTrans(p, old(server.calls), before, server.calls);
      tf, td := tf + f, td + d;
    }
  }

  /** The application: the configuration it edits and runs, and the storage it works on. disk
      is the local file system; network holds the FTP server answering at each reachable host. */
  class App {
    var settings: Settings
    var targets: seq<Target>
    var jobs: seq<Job>
    var running: bool
    /** What save_state last wrote to the configuration file, as it loads back. */
    var stored: State
    const disk: Backend
    const network: map<string, Backend>
    /** The servers of network, as one set. */
    ghost const servers: set<Backend>

    ghost predicate Valid()
      reads this, disk, servers
    {
      && disk.Valid() && disk !in servers
      && (forall s | s in servers :: s.Valid())
      && forall h | h in network :: network[h] in servers
    }

    function Snapshot(): State
      reads this
    {
      State(settings, targets, jobs)
    }

    /** The trees of the disk and of every server now. */
    ghost function Stores(): Storage
      reads disk, servers
    {
      TreesOf(disk, servers)
    }

    /** __init__: loads the configuration, writes it back normalised, and starts stopped. */
    constructor (c: ConfigRecord, disk: Backend, network: map<string, Backend>)
      requires disk.Valid() && disk !in network.Values && forall s | s in network.Values :: s.Valid()
      ensures Valid() && this.disk == disk && this.network == network
      ensures Snapshot() == LoadState(c) && stored == LoadState(c) && !running
    {
      var s := LoadState(c);
      settings, targets, jobs := s.settings, s.targets, s.jobs;
      stored := s;
      running := false;
      this.disk := disk;
      this.network := network;
      servers := network.Values;
    }

    /** run_job: a local job walks each of its folders on the disk; an ftp job looks up its
        target, connects, walks each of its folders on that server and closes the session; any
        other mode is an error. */
    method RunJob(job: Job) returns (outcome: Outcome, cli: Option<FtpClient>)
      requires Valid()
      modifies disk, servers
      ensures Valid()
      ensures job.mode == "local" ==>
        var e := Pass(Local, PolicyOf(job), disk.faults, Roots(Local, job.localFolders), old(disk.tree));
        && outcome == Done(e.1, e.2) && disk.tree == e.0 && cli == None
        && Walk.Respects(PolicyOf(job), old(disk.calls), disk.calls)
        && unchanged(servers)
      ensures job.mode == "ftp" && FindTarget(targets, job.ftpTarget).None? ==>
        outcome == TargetNotFound(job.ftpTarget) && cli == None && unchanged(disk) && unchanged(servers)
      ensures job.mode == "ftp" && FindTarget(targets, job.ftpTarget).Some? ==>
        var t := FindTarget(targets, job.ftpTarget).value;
        && cli.Some? && fresh(cli.value) && cli.value.target == t && cli.value.ftp == None
        && unchanged(disk)
        && if t.host !in network then outcome == ConnectFailed(t.host) && unchanged(servers)
           else
             var server := network[t.host];
             var r := Pass(Remote, PolicyOf(job), server.faults, Roots(Remote, job.ftpFolders), old(server.tree));
             && outcome == Done(r.1, r.2) && server.tree == r.0
             && Walk.Respects(PolicyOf(job), old(server.calls), server.calls)
             && forall s | s in servers && s != server :: unchanged(s)
      ensures job.mode != "local" && job.mode != "ftp" ==>
        outcome == UnknownMode(job.mode) && cli == None && unchanged(disk) && unchanged(servers)
      ensures (outcome, Stores()) == Perform(job, targets, network, disk.faults, old(Stores()))
    {
      var p := PolicyOf(job);
      if job.mode == "local" {
        outcome := RunLocal(job);
        return outcome, None;
      }
      if job.mode == "ftp" {
        var t := FindTarget(targets, job.ftpTarget);
        if t.None? {
          return TargetNotFound(job.ftpTarget), None;
        }
        var client;
        outcome, client := RunFtp(job, t.value);
        return outcome, Some(client);
      }
      return UnknownMode(job.mode), None;
    }

    /** The local branch of run_job: walks each of the job's folders on the local disk. */
    method RunLocal(job: Job) returns (outcome: Outcome)
      requires Valid() && job.mode == "local"
      modifies disk
      ensures Valid()
      ensures var e := Pass(Local, PolicyOf(job), disk.faults, Roots(Local, job.localFolders), old(disk.tree));
        && outcome == Done(e.1, e.2) && disk.tree == e.0
        && Walk.Respects(PolicyOf(job), old(disk.calls), disk.calls)
      ensures (outcome, Stores()) == Perform(job, targets, network, disk.faults, old(Stores()))
    {
      var tf, td := CleanLocalFolders(disk, job.localFolders, PolicyOf(job));
      assert Stores().servers == old(Stores().servers);
      return Done(tf, td);
    }

    /** The ftp branch of run_job once the target t is known: connects to it, walks each of the
        job's folders on the server and closes the session, also when a walk fails; a failed
        connect raises before anything is walked, and the session is not closed. */
    method RunFtp(job: Job, t: Target) returns (outcome: Outcome, client: FtpClient)
      requires Valid() && job.mode == "ftp" && FindTarget(targets, job.ftpTarget) == Some(t)
      modifies servers
      ensures Valid()
      ensures fresh(client) && client.target == t && client.ftp == None
      ensures t.host !in network ==> outcome == ConnectFailed(t.host) && unchanged(servers)
      ensures t.host in network ==>
        var server := network[t.host];
        var e := Pass(Remote, PolicyOf(job), server.faults, Roots(Remote, job.ftpFolders), old(server.tree));
        && outcome == Done(e.1, e.2) && server.tree == e.0
        && Walk.Respects(PolicyOf(job), old(server.calls), server.calls)
        && forall s | s in servers && s != server :: unchanged(s)
      ensures (outcome, Stores()) == PerformFtp(job, t, network, old(Stores()))
    {
      var ok;
      client, ok := Open(t, network);
      if !ok {
        TreesAre(disk, servers, old(Stores()));
        return ConnectFailed(t.host), client;
      }
      var tf, td := Session(client, network[t.host], job, old(Stores()));
      return Done(tf, td), client;
    }

    /** The try/finally of the ftp branch: walks each of the job's folders on the server of an
        open session, then closes the session. */
    method Session(client: FtpClient, server: Backend, job: Job, ghost before: Storage) returns (tf: nat, td: nat)
      requires Valid() && client.ftp == Some(server) && server in servers
      requires before.disk == disk.tree && before.servers.Keys == servers
      requires forall s | s in servers :: s.tree == before.servers[s]
      modifies client, server
      ensures Valid() && client.ftp == None
      ensures var e := Pass(Remote, PolicyOf(job), server.faults, Roots(Remote, job.ftpFolders), old(server.tree));
        && server.tree == e.0 && tf == e.1 && td == e.2
        && Walk.Respects(PolicyOf(job), old(server.calls), server.calls)
      ensures Stores() == before.(servers := before.servers[server := server.tree])
    {
      tf, td := CleanFtpFolders(client, job.ftpFolders, PolicyOf(job));
      client.Close();
      ServerChanged(servers, server, before.servers);
    }

    /** _run_due_jobs at clock reading c: runs every due job in configuration order and stamps
        it with the minute key whether or not it succeeds. A job that fails ends the tick at once,
        without saving; otherwise the configuration is saved when any job fired. fired lists the
        jobs run, failed says whether the last of them raised. */
    method RunDueJobs(c: Clock) returns (fired: seq<nat>, failed: bool)
      requires Valid() && ValidClock(c)
      modifies this, disk, servers
      ensures Valid()
      ensures settings == old(settings) && targets == old(targets) && running == old(running)
      ensures TickEffect(old(jobs), c, old(targets), network, disk.faults, old(Stores()), Stores(), fired, failed, jobs)
      ensures stored == if !failed && fired != [] then Snapshot() else old(stored)
      ensures fired == [] ==> unchanged(disk) && unchanged(servers)
    {
      var js;
      js, fired, failed := FireDue(c);
      Commit(js, !failed && fired != []);
    }

    /** The loop of _run_due_jobs: fires the due jobs in order, stamping each with the minute key
        whether or not it succeeds, and stops after the first that raises; js is the job list
        with the stamps. The storage ends as the fired jobs leave it, run in order. */
    method FireDue(c: Clock) returns (js: seq<Job>, fired: seq<nat>, failed: bool)
      requires Valid() && ValidClock(c)
      modifies disk, servers
      ensures Valid()
      ensures TickEffect(jobs, c, targets, network, disk.faults, old(Stores()), Stores(), fired, failed, js)
      ensures fired == [] ==> unchanged(disk) && unchanged(servers)
    {
      var J := jobs;
      js := J;
      fired, failed := [], false;
      ghost var S0 := Stores();
      for i := 0 to |J|
        invariant Valid() && js == StampedUpTo(J, c, i)
        invariant fired + DueFrom(J, c, i) == DueIndices(J, c)
        invariant IndicesBelow(fired, |J|)
        invariant Stores() == PerformAll(J, fired, targets, network, disk.faults, S0)
        invariant NoneRaise(J, fired, targets, network)
        invariant fired == [] ==> unchanged(disk) && unchanged(servers)
      {
        var ran, ok;
        ghost var before := fired;
        js, fired, ran, ok := FireNext(J, c, i, js, fired, S0);
        if !ok {
          assert fired[..|fired| - 1] == before;
          return js, fired, true;
        }
      }
      assert fired + DueFrom(J, c, |J|) == fired;
    }

    /** One turn of the loop of _run_due_jobs, at job i of J: the jobs fired before it have taken
        storage from S0 to what it is now. The turn fires job i when it is due, stamping it in js
        and adding it to fired; ok is false when its run raised. */
    method FireNext(J: seq<Job>, c: Clock, i: nat, js: seq<Job>, fired: seq<nat>, ghost S0: Storage)
      returns (js2: seq<Job>, fired2: seq<nat>, ran: bool, ok: bool)
      requires Valid() && ValidClock(c) && i < |J| && Covers(network, S0)
      requires js == StampedUpTo(J, c, i) && fired + DueFrom(J, c, i) == DueIndices(J, c)
      requires IndicesBelow(fired, |J|) && NoneRaise(J, fired, targets, network)
      requires Stores() == PerformAll(J, fired, targets, network, disk.faults, S0)
      modifies disk, servers
      ensures Valid()
      ensures ran <==> Due(J[i], c)
      ensures fired2 == if ran then fired + [i] else fired
      ensures js2 == StampedUpTo(J, c, i + 1) && fired2 + DueFrom(J, c, i + 1) == DueIndices(J, c)
      ensures |fired2| <= |DueIndices(J, c)| && DueIndices(J, c)[..|fired2|] == fired2
      ensures IndicesBelow(fired2, |J|)
      ensures Stores() == PerformAll(J, fired2, targets, network, disk.faults, S0)
      ensures ok ==> NoneRaise(J, fired2, targets, network)
      ensures !ok ==> ran && RunRaises(J[i], targets, network)
      ensures !ran ==> ok && unchanged(disk) && unchanged(servers)
    {
      StampStep(J, c, i);
      FiredStep(J, c, i, fired, targets, network);
      ran, ok := FireIfDue(js[i], c);
      js2, fired2 := js, fired;
      if ran {
        js2 := js[i := js[i].(lastRunKey := MinuteKey(c))];
        fired2 := fired + [i];
      }
    }

    /** The body of the loop of _run_due_jobs for job j: skips it unless every guard holds and it
        has not fired in this minute; otherwise runs it. ok is false when the run raised. */
    method FireIfDue(j: Job, c: Clock) returns (ran: bool, ok: bool)
      requires Valid() && ValidClock(c)
      modifies disk, servers
      ensures Valid()
      ensures ran <==> Due(j, c)
      ensures !ran ==> ok && unchanged(disk) && unchanged(servers)
      ensures ran ==> (ok <==> !RunRaises(j, targets, network))
      ensures ran ==> Stores() == Perform(j, targets, network, disk.faults, old(Stores())).1
    {
      if !j.enabled || !j.scheduleEnabled {
        return false, true;
      }
      if c.weekday !in j.days {
        return false, true;
      }
      if c.hour != j.hour || c.minute != j.minute {
        return false, true;
      }
      if j.lastRunKey == MinuteKey(c) {
        return false, true;
      }
      var outcome, _ := RunJob(j);
      return true, outcome.Done?;
    }

    /** save_state: writes the settings, targets and jobs to the configuration file. */
    method Save()
      modifies this
      ensures settings == old(settings) && targets == old(targets) && jobs == old(jobs) && running == old(running)
      ensures stored == Snapshot()
    {
      stored := Snapshot();
    }

    /** _tick: when the scheduler runs, fires the due jobs, a job that raises being caught and
        logged; in every case it re-arms itself after max(5, tick_seconds) seconds. fired and
        failed say what the tick ran, as RunDueJobs reports it. */
    method Tick(c: Clock) returns (delay: int, ghost fired: seq<nat>, ghost failed: bool)
      requires Valid() && ValidClock(c)
      modifies this, disk, servers
      ensures Valid() && settings == old(settings) && targets == old(targets) && running == old(running)
      ensures delay == TickDelay(settings.tick)
      ensures !running ==> fired == [] && !failed && jobs == old(jobs) && stored == old(stored)
      ensures running ==> TickEffect(old(jobs), c, old(targets), network, disk.faults, old(Stores()), Stores(), fired, failed, jobs)
      ensures running ==> stored == if !failed && fired != [] then Snapshot() else old(stored)
      ensures fired == [] ==> unchanged(disk) && unchanged(servers)
    {
      fired, failed := [], false;
      if running {
        fired, failed := RunDueJobs(c);
      }
      delay := TickDelay(settings.tick);
    }

    /** job_save on the selected job: rejects a form whose hour or minute does not parse or is
        out of range; otherwise replaces the job by the form's contents, keeping its
        last_run_key, and saves. With nothing selected it does nothing. */
    method JobSave(idx: Option<nat>, f: Form) returns (saved: bool)
      requires idx.Some? ==> idx.value < |jobs|
      requires |f.dayChecks| == 7
      modifies this
      ensures settings == old(settings) && targets == old(targets) && running == old(running)
      ensures saved <==> idx.Some? && SaveForm(f, old(jobs)[idx.value]).Some?
      ensures saved ==>
        jobs == old(jobs)[idx.value := SaveForm(f, old(jobs)[idx.value]).value] && stored == Snapshot()
      ensures !saved ==> jobs == old(jobs) && stored == old(stored)
    {
      if idx.None? {
        return false;
      }
      var j := SaveForm(f, jobs[idx.value]);
      if j.None? {
        return false;
      }
      Replace(idx.value, j.value);
      return true;
    }

    /** Takes js as the job list, and saves when save is set. */
    method Commit(js: seq<Job>, save: bool)
      requires Valid()
      modifies this
      ensures Valid() && Stores() == old(Stores())
      ensures settings == old(settings) && targets == old(targets) && running == old(running) && jobs == js
      ensures stored == if save then Snapshot() else old(stored)
    {
      jobs := js;
      if save {
        Save();
      }
    }

    /** Puts job j at index i of the list and saves. */
    method Replace(i: nat, j: Job)
      requires i < |jobs|
      modifies this
      ensures settings == old(settings) && targets == old(targets) && running == old(running)
      ensures jobs == old(jobs)[i := j] && stored == Snapshot()
    {
      jobs := jobs[i := j];
      Save();
    }

    /** settings_save: rejects a form whose numbers do not parse; otherwise stores both raised
        to at least 5 and saves. */
    method SettingsSave(tickText: string, timeoutText: string) returns (saved: bool)
      modifies this
      ensures jobs == old(jobs) && targets == old(targets) && running == old(running)
      ensures saved <==> SaveSettings(tickText, timeoutText).Some?
      ensures saved ==>
        settings == SaveSettings(tickText, timeoutText).value && stored == Snapshot()
        && settings.tick >= 5 && settings.timeout >= 5
      ensures !saved ==> settings == old(settings) && stored == old(stored)
    {
      var s := SaveSettings(tickText, timeoutText);
      if s.None? {
        return false;
      }
      settings := s.value;
      Save();
      return true;
    }
  }
}
