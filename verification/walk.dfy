/** The two phases both cleanup walks share, in the order both run them: first walk the child
    directories the walk enters, then delete the files of the directory whose names are not
    excluded (a dry run only counts them). The walks differ in which children they enter
    (Cleanup.Descends) and in how they remove directories afterwards. */
module Walk {
  import opened Tree
  import opened Cleanup
  import Glob

  /** What a walk from s may assume about the backend it runs against. */
  ghost predicate Ready(b: Backend, r: Run, s: Path, t0: Fs)
    reads b
  {
    && b.Valid() && Wf(t0) && b.faults == r.faults
    && |r.root| <= |s| && s[..|r.root|] == r.root
  }

  /** The calls the walk from s may make: it lists only directories it enters; it deletes only
      files of such directories whose names match no exclude_files pattern; it removes only
      directories it enters that lie strictly below the job's root and (local walk) whose names
      match no exclude_folders pattern; and in a dry run it only lists. */
  ghost predicate Allowed(r: Run, s: Path, c: Call) {
    match c
    case ListCall(d) => Inside(r, s, d)
    case DeleteCall(f) =>
      && |f| > 0 && Inside(r, s, f[..|f| - 1])
      && !Glob.MatchesAny(f[|f| - 1], r.policy.excludeFiles) && !r.policy.dryRun
    case RmdirCall(d) => Inside(r, s, d) && Below(r.root, d) && KeptName(r, d) && !r.policy.dryRun
  }

  /** d lies at or below s and the walk from s enters every directory on the way down to d. */
  ghost predicate Inside(r: Run, s: Path, d: Path) {
    |s| <= |d| && d[..|s|] == s && EntersFrom(r, |s|, d)
  }

  /** The calls from before to after extend the log, and every new call is allowed. */
  ghost predicate Logged(r: Run, s: Path, before: seq<Call>, after: seq<Call>) {
    && |before| <= |after| && after[..|before|] == before
    && forall i | |before| <= i < |after| :: Allowed(r, s, after[i])
  }

  lemma LoggedNone(r: Run, s: Path, a: seq<Call>)
    ensures Logged(r, s, a, a)
  {
  }

  lemma LoggedOne(r: Run, s: Path, a: seq<Call>, c: Call)
    requires Allowed(r, s, c)
    ensures Logged(r, s, a, a + [c])
  {
    assert (a + [c])[|a|] == c;
  }

  lemma LoggedTrans(r: Run, s: Path, a: seq<Call>, b: seq<Call>, c: seq<Call>)
    requires Logged(r, s, a, b) && Logged(r, s, b, c)
    ensures Logged(r, s, a, c)
  {
    assert c[..|a|] == c[..|b|][..|a|];
    forall i | |a| <= i < |c| ensures Allowed(r, s, c[i]) {
      if i < |b| {
        assert c[i] == c[..|b|][i];
      }
    }
  }

  /** What the walk from child s + [n] may do, the walk from s may do when it enters that child. */
  lemma LoggedWiden(r: Run, s: Path, n: string, a: seq<Call>, b: seq<Call>)
    requires Descends(r, n) && Logged(r, s + [n], a, b)
    ensures Logged(r, s, a, b)
  {
    forall i | |a| <= i < |b| ensures Allowed(r, s, b[i]) {
      var d := match b[i] case ListCall(d) => d case DeleteCall(f) => f[..|f| - 1] case RmdirCall(d) => d;
      InsideWiden(r, s, n, d);
    }
  }

  lemma InsideWiden(r: Run, s: Path, n: string, d: Path)
    requires Descends(r, n) && Inside(r, s + [n], d)
    ensures Inside(r, s, d)
  {
    var c := s + [n];
    assert d[..|s|] == s by { assert d[..|s|] == d[..|c|][..|s|]; }
    forall j | |s| <= j < |d| ensures Descends(r, d[j]) {
      if j == |s| {
        assert d[j] == d[..|c|][j];
      }
    }
  }

  /** What a whole job promises about the calls it adds to a backend's log from before to after:
      it never deletes a file whose name matches exclude_files, and a dry run only lists. */
  ghost predicate Respects(p: Policy, before: seq<Call>, after: seq<Call>) {
    && |before| <= |after| && after[..|before|] == before
    && forall i | |before| <= i < |after| :: Harmless(p, after[i])
  }

  ghost predicate Harmless(p: Policy, c: Call) {
    && (c.DeleteCall? ==> |c.file| > 0 && !Glob.MatchesAny(c.file[|c.file| - 1], p.excludeFiles))
    && (p.dryRun ==> c.ListCall?)
  }

  /** One folder's walk keeps the job's promise. */
  lemma LoggedRespects(r: Run, s: Path, a: seq<Call>, b: seq<Call>)
    requires Logged(r, s, a, b)
    ensures Respects(r.policy, a, b)
  {
    forall i | |a| <= i < |b| ensures Harmless(r.policy, b[i]) {
      assert Allowed(r, s, b[i]);
    }
  }

  lemma RespectsTrans(p: Policy, a: seq<Call>, b: seq<Call>, c: seq<Call>)
    requires Respects(p, a, b) && Respects(p, b, c)
    ensures Respects(p, a, c)
  {
    assert c[..|a|] == c[..|b|][..|a|];
    forall i | |a| <= i < |c| ensures Harmless(p, c[i]) {
      if i < |b| {
        assert c[i] == c[..|b|][i];
      }
    }
  }

  /** What the first phase has removed once it has handled the children named in names. */
  ghost function DescentEffect(r: Run, t0: Fs, s: Path, names: set<string>): set<Path> {
    if r.policy.dryRun then {} else DeepFiles(r, t0, s, names) + DeepDirs(r, t0, s, names)
  }

  /** Second phase: delete every file whose name is not excluded (a dry run only counts it). */
  method DeleteFiles(b: Backend, r: Run, s: Path, ghost t0: Fs, items: seq<Entry>, ghost T: Fs) returns (nf: nat)
    requires Ready(b, r, s, t0) && Agree(T, t0, s) && Listable(r, t0, s) && IsListing(T, s, items)
    requires b.tree == T - DescentEffect(r, t0, s, Names(items))
    modifies b
    ensures b.Valid()
    ensures b.tree == T - (DescentEffect(r, t0, s, Names(items)) + DeletedSoFar(r, t0, s, Names(items)))
    ensures nf == |DirectFiles(r, t0, s, Names(items))|
    ensures Logged(r, s, old(b.calls), b.calls)
  {
    ghost var E := DescentEffect(r, t0, s, Names(items));
    LoggedNone(r, s, b.calls);
    nf := 0;
    var k := 0;
    while k < |items|
      invariant 0 <= k <= |items|
      invariant b.Valid()
      invariant b.tree == T - (E + DeletedSoFar(r, t0, s, Names(items[..k])))
      invariant nf == |DirectFiles(r, t0, s, Names(items[..k]))|
      invariant Logged(r, s, old(b.calls), b.calls)
    {
      NamesStep(items, k);
      ghost var before := b.calls;
      nf := DeleteOne(b, r, s, t0, items[k], Names(items[..k]), Names(items), E, T, nf);
      LoggedTrans(r, s, old(b.calls), before, b.calls);
      k := k + 1;
    }
    assert items[..k] == items;
  }

  /** One entry of the second phase. */
  method DeleteOne(b: Backend, r: Run, s: Path, ghost t0: Fs, e: Entry, ghost names: set<string>,
                   ghost all: set<string>, ghost E: set<Path>, ghost T: Fs, nf0: nat)
    returns (nf: nat)
    requires Ready(b, r, s, t0) && Agree(T, t0, s) && Listable(r, t0, s)
    requires e.name !in names && s + [e.name] in T && (e.isDir <==> T[s + [e.name]] == Dir)
    requires E == DescentEffect(r, t0, s, all)
    requires b.tree == T - (E + DeletedSoFar(r, t0, s, names))
    requires nf0 == |DirectFiles(r, t0, s, names)|
    modifies b
    ensures b.Valid()
    ensures b.tree == T - (E + DeletedSoFar(r, t0, s, names + {e.name}))
    ensures nf == |DirectFiles(r, t0, s, names + {e.name})|
    ensures Logged(r, s, old(b.calls), b.calls)
  {
    var p := s + [e.name];
    DeleteStep(r, t0, s, e.name, names, T);
    LoggedNone(r, s, b.calls);
    nf := nf0;
    if !e.isDir && !Glob.MatchesAny(e.name, r.policy.excludeFiles) {
      if r.policy.dryRun {
        nf := nf0 + 1;
      } else {
        DeleteTarget(r, t0, s, e.name, names, all, T);
        DeleteAllowed(r, s, e.name, old(b.calls));
        var ok := b.DeleteFile(p);
        if ok {
          nf := nf0 + 1;
          MinusUnion(T, E + DeletedSoFar(r, t0, s, names), {p});
          UnionAssoc(E, DeletedSoFar(r, t0, s, names), {p});
        }
      }
    }
  }

  // ---------------------------------------------------------------------------------------
  // Set algebra behind each step, kept out of the methods.

  lemma ListAllowed(r: Run, s: Path, a: seq<Call>)
    ensures Logged(r, s, a, a + [ListCall(s)])
  {
    assert s[..|s|] == s;
    LoggedOne(r, s, a, ListCall(s));
  }

  lemma DeleteAllowed(r: Run, s: Path, n: string, a: seq<Call>)
    requires !Glob.MatchesAny(n, r.policy.excludeFiles) && !r.policy.dryRun
    ensures Logged(r, s, a, a + [DeleteCall(s + [n])])
  {
    var p := s + [n];
    assert p[..|p| - 1] == s && p[|p| - 1] == n && s[..|s|] == s;
    LoggedOne(r, s, a, DeleteCall(p));
  }

  lemma DescentEffectNames(r: Run, t0: Fs, s: Path, names: set<string>)
    ensures forall x | x in DescentEffect(r, t0, s, names) :: |x| > |s| && x[|s|] in names
  {
  }

  /** A child the first phase does not walk adds nothing. */
  lemma DescentSkip(r: Run, t0: Fs, s: Path, n: string, names: set<string>)
    requires Wf(t0) && Listable(r, t0, s)
    requires !(s + [n] in t0 && t0[s + [n]] == Dir && Descends(r, n))
    ensures DeepFiles(r, t0, s, names + {n}) == DeepFiles(r, t0, s, names)
    ensures DeepDirs(r, t0, s, names + {n}) == DeepDirs(r, t0, s, names)
    ensures DescentEffect(r, t0, s, names + {n}) == DescentEffect(r, t0, s, names)
  {
    SliceFiles(r, t0, s, n, names);
    SliceDirs(r, t0, s, n, names);
  }

  /** A child the first phase walks adds exactly what the walk from that child does. */
  lemma DescentEnter(r: Run, t0: Fs, s: Path, n: string, names: set<string>)
    requires Wf(t0) && Listable(r, t0, s) && n !in names
    requires |r.root| <= |s| && s[..|r.root|] == r.root
    requires s + [n] in t0 && t0[s + [n]] == Dir && Descends(r, n)
    ensures (s + [n])[..|r.root|] == r.root
    ensures DescentEffect(r, t0, s, names + {n}) == DescentEffect(r, t0, s, names) + Effect(r, t0, s + [n])
    ensures |DeepFiles(r, t0, s, names + {n})| == |DeepFiles(r, t0, s, names)| + |FilesCounted(r, t0, s + [n])|
    ensures |DeepDirs(r, t0, s, names + {n})| == |DeepDirs(r, t0, s, names)| + |DirsCounted(r, t0, s + [n])|
  {
    var c := s + [n];
    SliceFiles(r, t0, s, n, names);
    SliceDirs(r, t0, s, n, names);
    assert c[..|r.root|] == r.root;
    EnterAlgebra(r.policy.dryRun, DeepFiles(r, t0, s, names), DeepDirs(r, t0, s, names),
      FilesCounted(r, t0, c), DirsCounted(r, t0, c),
      DeepFiles(r, t0, s, names + {n}), DeepDirs(r, t0, s, names + {n}));
  }

  lemma EnterAlgebra(dry: bool, F: set<Path>, D: set<Path>, FC: set<Path>, DC: set<Path>,
                     F2: set<Path>, D2: set<Path>)
    requires F2 == F + FC && F !! FC
    requires D2 == D + DC && D !! DC
    ensures (if dry then {} else F2 + D2) == (if dry then {} else F + D) + (if dry then {} else FC + DC)
    ensures |F2| == |F| + |FC| && |D2| == |D| + |DC|
  {
    CardUnion(F, FC);
    CardUnion(D, DC);
  }

  /** What the second phase has deleted once it has handled the names in names. */
  ghost function DeletedSoFar(r: Run, t0: Fs, s: Path, names: set<string>): set<Path> {
    if r.policy.dryRun then {} else DirectFiles(r, t0, s, names)
  }

  /** The second phase counts entry s + [n] of the listing taken from T. */
  predicate FileCounted(r: Run, T: Fs, s: Path, n: string)
    requires s + [n] in T
  {
    T[s + [n]] == File && !Glob.MatchesAny(n, r.policy.excludeFiles)
    && (r.policy.dryRun || s + [n] !in r.faults.delete)
  }

  /** One entry of the second phase: the file s + [n], if it is one, is counted exactly when the
      walk deletes it (or, in a dry run, would). */
  lemma DeleteStep(r: Run, t0: Fs, s: Path, n: string, names: set<string>, T: Fs)
    requires Listable(r, t0, s) && n !in names && Agree(T, t0, s) && s + [n] in T
    ensures |DirectFiles(r, t0, s, names + {n})| ==
      |DirectFiles(r, t0, s, names)| + (if FileCounted(r, T, s, n) then 1 else 0)
    ensures FileCounted(r, T, s, n) && !r.policy.dryRun ==>
      DeletedSoFar(r, t0, s, names + {n}) == DeletedSoFar(r, t0, s, names) + {s + [n]}
    ensures !(FileCounted(r, T, s, n) && !r.policy.dryRun) ==>
      DeletedSoFar(r, t0, s, names + {n}) == DeletedSoFar(r, t0, s, names)
  {
    var p := s + [n];
    assert p[..|s|] == s;
    DirectStep(r, t0, s, n, names);
    CardUnion(DirectFiles(r, t0, s, names), if FileCounted(r, T, s, n) then {p} else {});
  }

  /** The file the second phase deletes is still there when it does. */
  lemma DeleteTarget(r: Run, t0: Fs, s: Path, n: string, names: set<string>, all: set<string>, T: Fs)
    requires Agree(T, t0, s) && s + [n] in T && T[s + [n]] == File && n !in names
    ensures s + [n] !in DescentEffect(r, t0, s, all) + DeletedSoFar(r, t0, s, names)
  {
    assert (s + [n])[..|s|] == s;
  }

  /** The counts and the removed set of the walk from s, split into its three phases. */
  lemma Split(r: Run, t0: Fs, s: Path, T: Fs, items: seq<Entry>)
    requires Wf(t0) && Agree(T, t0, s) && IsListing(T, s, items)
    ensures forall q | q in t0 && IsChild(s, q) :: q[|s|] in Names(items)
    ensures |FilesCounted(r, t0, s)| ==
      |DeepFiles(r, t0, s, Names(items))| + |DirectFiles(r, t0, s, Names(items))|
    ensures DescentEffect(r, t0, s, Names(items)) + DeletedSoFar(r, t0, s, Names(items)) ==
      if r.policy.dryRun then {} else FilesCounted(r, t0, s) + DeepDirs(r, t0, s, Names(items))
    ensures r.side == Remote ==>
      DirsCounted(r, t0, s) == DeepDirs(r, t0, s, Names(items)) + (if CountedDir(r, t0, s, s) then {s} else {})
    ensures r.side == Local ==>
      DirsCounted(r, t0, s) == DeepDirs(r, t0, s, Names(items)) + ChildDirs(r, t0, s, Names(items))
    ensures r.side == Local ==>
      |DirsCounted(r, t0, s)| == |DeepDirs(r, t0, s, Names(items))| + |ChildDirs(r, t0, s, Names(items))|
    ensures s !in DeepDirs(r, t0, s, Names(items))
  {
    var N := Names(items);
    forall q | q in t0 && IsChild(s, q) ensures q[|s|] in N {
      assert q[..|s|] == s;
      assert q in T;
    }
    FilesSplit(r, t0, s, N);
    DirsSplit(r, t0, s, N);
    CardUnion(DeepFiles(r, t0, s, N), DirectFiles(r, t0, s, N));
    if r.side == Local {
      CardUnion(DeepDirs(r, t0, s, N), ChildDirs(r, t0, s, N));
    }
    UnionAssoc(DeepFiles(r, t0, s, N), DeepDirs(r, t0, s, N), DirectFiles(r, t0, s, N));
  }
}
