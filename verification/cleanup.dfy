/** What a cleanup walk does to a tree, stated without reference to the order of the walk.
    One definition serves both walks; they differ in one place, Reached: the local walk
    (os.walk bottom-up) descends into every directory, and the remote walk never enters a child
    directory whose name matches exclude_folders. Everything is a function of the tree as it was
    when the walk started. */
module Cleanup {
  import opened Tree
  import Glob

  datatype Side = Local | Remote

  /** The job settings a walk applies. */
  datatype Policy = Policy(excludeFiles: seq<string>, excludeFolders: seq<string>, dryRun: bool)

  /** One walk: which backend, the configured folder it starts at, the policy, and the faults. */
  datatype Run = Run(side: Side, root: Path, policy: Policy, faults: Faults)

  predicate Listable(r: Run, t: Fs, d: Path) {
    d in t && t[d] == Dir && d !in r.faults.list
  }

  /** The walk that starts at directory s lists directory d: d lies at or below s, every directory
      from s down to d lists successfully, and (remote only) none of the names between s and d
      matches exclude_folders. */
  predicate Reached(r: Run, t: Fs, s: Path, d: Path) {
    && |s| <= |d| && d[..|s|] == s
    && ListsFrom(r, t, |s|, d)
    && EntersFrom(r, |s|, d)
  }

  predicate ListsFrom(r: Run, t: Fs, lo: nat, d: Path) {
    forall i | lo <= i <= |d| :: Listable(r, t, d[..i])
  }

  predicate EntersFrom(r: Run, lo: nat, d: Path) {
    forall j | lo <= j < |d| :: Descends(r, d[j])
  }

  /** Whether the walk enters a child directory with this name. */
  predicate Descends(r: Run, n: string) {
    r.side == Local || !Glob.MatchesAny(n, r.policy.excludeFolders)
  }

  /** A file the walk from s counts: it sits in a reached directory, its name is not excluded,
      and (in a real run) its deletion succeeds. */
  predicate CountedFile(r: Run, t: Fs, s: Path, f: Path) {
    && f in t && t[f] == File && |f| > |s|
    && Reached(r, t, s, f[..|f| - 1])
    && !Glob.MatchesAny(f[|f| - 1], r.policy.excludeFiles)
    && (r.policy.dryRun || f !in r.faults.delete)
  }

  /** The local walk spares the shell of a directory whose name is excluded; the remote walk
      never reaches one. */
  predicate KeptName(r: Run, d: Path)
    requires |d| > 0
  {
    r.side == Local ==> !Glob.MatchesAny(d[|d| - 1], r.policy.excludeFolders)
  }

  /** In a real run, q is deleted (a file) or its own removal is attempted and succeeds (a directory). */
  predicate Gone(r: Run, t: Fs, s: Path, q: Path)
    requires q in t && |q| > 0
  {
    && !r.policy.dryRun
    && (t[q] == File ==> CountedFile(r, t, s, q))
    && (t[q] == Dir ==> Reached(r, t, s, q) && KeptName(r, q) && q !in r.faults.rmdir)
  }

  /** A directory the walk from s counts as removed: strictly below the job's root, reached, not
      spared by name, its rmdir succeeds (real run), and it is empty when checked, which holds
      exactly when everything below it is gone (in a dry run: when nothing is below it). The
      local walk removes a directory from its parent's step, so never s itself. */
  predicate CountedDir(r: Run, t: Fs, s: Path, d: Path) {
    && d in t && t[d] == Dir
    && Below(r.root, d)
    && |s| <= |d| && (r.side == Local ==> |s| < |d|)
    && Reached(r, t, s, d)
    && KeptName(r, d)
    && (r.policy.dryRun || d !in r.faults.rmdir)
    && (forall q | q in t && Below(d, q) :: Gone(r, t, s, q))
  }

  function FilesCounted(r: Run, t: Fs, s: Path): set<Path> {
    set f | f in t && CountedFile(r, t, s, f)
  }

  function DirsCounted(r: Run, t: Fs, s: Path): set<Path> {
    set d | d in t && CountedDir(r, t, s, d)
  }

  /** What the walk from s removes from the tree. */
  function Effect(r: Run, t: Fs, s: Path): set<Path>
    requires |r.root| <= |s| && s[..|r.root|] == r.root
  {
    if r.policy.dryRun then {} else FilesCounted(r, t, s) + DirsCounted(r, t, s)
  }

  /** A walk removes only entries that exist, nothing in a dry run, never the job's root or
      anything outside it, never a file whose name matches exclude_files, and never an entry
      whose delete or rmdir fails. */
  lemma EffectBounds(r: Run, t: Fs, s: Path)
    requires |r.root| <= |s| && s[..|r.root|] == r.root
    ensures Effect(r, t, s) <= t.Keys
    ensures r.policy.dryRun ==> Effect(r, t, s) == {}
    ensures forall q | q in Effect(r, t, s) ::
              Below(r.root, q) && (t[q] == File ==> !Glob.MatchesAny(q[|q| - 1], r.policy.excludeFiles))
    ensures forall q | q in Effect(r, t, s) ::
              if t[q] == File then q !in r.faults.delete else q !in r.faults.rmdir
  {
    forall q | q in Effect(r, t, s) ensures Below(r.root, q) {
      if q in FilesCounted(r, t, s) {
        assert q[..|r.root|] == r.root by { assert q[..|s|] == q[..|q| - 1][..|s|]; }
      }
    }
  }

  // ---------------------------------------------------------------------------------------
  // How the walk from s decomposes into the walks from its children. These facts carry the
  // proofs of the two walk methods.

  /** t1 and t2 hold the same entries at and below s. */
  ghost predicate Agree(t1: Fs, t2: Fs, s: Path) {
    forall q | |s| <= |q| && q[..|s|] == s :: (q in t1 <==> q in t2) && (q in t1 ==> t1[q] == t2[q])
  }

  function Subtree(t: Fs, s: Path): set<Path> {
    set q | q in t && |s| <= |q| && q[..|s|] == s
  }

  /** The shallowest directories the walk from s counts lie |s| + Lag(r) + 1 deep. */
  function Lag(r: Run): nat {
    if r.side == Local then 1 else 0
  }

  function DeepFiles(r: Run, t: Fs, s: Path, names: set<string>): set<Path> {
    set f | f in FilesCounted(r, t, s) && |f| > |s| + 1 && f[|s|] in names
  }

  function DeepDirs(r: Run, t: Fs, s: Path, names: set<string>): set<Path> {
    set d | d in DirsCounted(r, t, s) && |d| > |s| + Lag(r) && d[|s|] in names
  }

  function DirectFiles(r: Run, t: Fs, s: Path, names: set<string>): set<Path> {
    set f | f in FilesCounted(r, t, s) && |f| == |s| + 1 && f[|s|] in names
  }

  function ChildDirs(r: Run, t: Fs, s: Path, names: set<string>): set<Path> {
    set d | d in DirsCounted(r, t, s) && |d| == |s| + 1 && d[|s|] in names
  }

  /** A walk that cannot list its start reaches nothing. */
  lemma NothingReached(r: Run, t: Fs, s: Path)
    requires !Listable(r, t, s)
    ensures FilesCounted(r, t, s) == {} && DirsCounted(r, t, s) == {}
  {
  }

  /** Below a listable s, reaching d through child c = s + [n] is entering c and reaching d from c. */
  lemma ReachedStep(r: Run, t: Fs, s: Path, n: string, d: Path)
    requires Listable(r, t, s)
    requires |s| + 1 <= |d| && d[..|s| + 1] == s + [n]
    ensures Reached(r, t, s, d) <==> Descends(r, n) && Reached(r, t, s + [n], d)
  {
    assert d[..|s|] == s by { assert d[..|s|] == d[..|s| + 1][..|s|]; }
    assert d[|s|] == n by { assert d[|s|] == d[..|s| + 1][|s|]; }
    assert ListsFrom(r, t, |s|, d) <==> ListsFrom(r, t, |s| + 1, d);
    if Descends(r, n) && EntersFrom(r, |s| + 1, d) {
      forall j | |s| <= j < |d| ensures Descends(r, d[j]) {
        if j == |s| { assert d[j] == n; }
      }
    }
  }

  lemma FileStep(r: Run, t: Fs, s: Path, n: string, f: Path)
    requires Listable(r, t, s) && Descends(r, n)
    requires |f| > |s| + 1 && f[..|s| + 1] == s + [n]
    ensures CountedFile(r, t, s, f) <==> CountedFile(r, t, s + [n], f)
  {
    var p := f[..|f| - 1];
    assert p[..|s| + 1] == s + [n];
    ReachedStep(r, t, s, n, p);
  }

  lemma GoneStep(r: Run, t: Fs, s: Path, n: string, q: Path)
    requires Listable(r, t, s) && Descends(r, n)
    requires q in t && |q| > |s| + 1 && q[..|s| + 1] == s + [n]
    ensures Gone(r, t, s, q) <==> Gone(r, t, s + [n], q)
  {
    FileStep(r, t, s, n, q);
    ReachedStep(r, t, s, n, q);
  }

  lemma DirStep(r: Run, t: Fs, s: Path, n: string, d: Path)
    requires Listable(r, t, s) && Descends(r, n)
    requires |d| > |s| + Lag(r) && |d| > |s| && d[..|s| + 1] == s + [n]
    ensures CountedDir(r, t, s, d) <==> CountedDir(r, t, s + [n], d)
  {
    var c := s + [n];
    ReachedStep(r, t, s, n, d);
    forall q | q in t && Below(d, q) ensures Gone(r, t, s, q) <==> Gone(r, t, c, q) {
      assert q[..|s| + 1] == d[..|s| + 1] by { assert q[..|s| + 1] == q[..|d|][..|s| + 1]; }
      GoneStep(r, t, s, n, q);
    }
  }

  /** Under a listable s, the counted files whose first name below s is n are exactly what the
      walk from child s + [n] counts, when the walk enters that child, and nothing otherwise. */
  lemma SliceFiles(r: Run, t: Fs, s: Path, n: string, names: set<string>)
    requires Wf(t) && Listable(r, t, s)
    ensures DeepFiles(r, t, s, names + {n}) ==
      DeepFiles(r, t, s, names) + SliceOf(FilesCounted(r, t, s + [n]), r, t, s + [n], n)
    ensures n !in names ==> DeepFiles(r, t, s, names) !! SliceOf(FilesCounted(r, t, s + [n]), r, t, s + [n], n)
  {
    var c := s + [n];
    forall f | f in DeepFiles(r, t, s, names + {n}) && f[|s|] == n
      ensures f in SliceOf(FilesCounted(r, t, c), r, t, c, n)
    {
      DeepFileInSlice(r, t, s, n, f);
    }
    forall f | f in SliceOf(FilesCounted(r, t, c), r, t, c, n)
      ensures f in DeepFiles(r, t, s, names + {n}) && f[|s|] == n
    {
      SliceFileIsDeep(r, t, s, n, f);
    }
  }

  lemma DeepFileInSlice(r: Run, t: Fs, s: Path, n: string, f: Path)
    requires Wf(t) && Listable(r, t, s)
    requires f in FilesCounted(r, t, s) && |f| > |s| + 1 && f[|s|] == n
    ensures f in SliceOf(FilesCounted(r, t, s + [n]), r, t, s + [n], n)
  {
    var c := s + [n];
    assert f[..|s| + 1] == c by { assert f[..|f| - 1][..|s|] == f[..|s|]; }
    AncestorIsDir(t, f, |s| + 1);
    ReachedStep(r, t, s, n, f[..|f| - 1]);
    FileStep(r, t, s, n, f);
  }

  lemma SliceFileIsDeep(r: Run, t: Fs, s: Path, n: string, f: Path)
    requires Listable(r, t, s)
    requires f in SliceOf(FilesCounted(r, t, s + [n]), r, t, s + [n], n)
    ensures f in FilesCounted(r, t, s) && |f| > |s| + 1 && f[|s|] == n
  {
    var c := s + [n];
    assert f[..|c|] == c by { assert f[..|f| - 1][..|c|] == f[..|c|]; }
    assert f[|s|] == n by { assert f[|s|] == f[..|c|][|s|]; }
    FileStep(r, t, s, n, f);
  }

  /** The same for counted directories. */
  lemma SliceDirs(r: Run, t: Fs, s: Path, n: string, names: set<string>)
    requires Wf(t) && Listable(r, t, s)
    ensures DeepDirs(r, t, s, names + {n}) ==
      DeepDirs(r, t, s, names) + SliceOf(DirsCounted(r, t, s + [n]), r, t, s + [n], n)
    ensures n !in names ==> DeepDirs(r, t, s, names) !! SliceOf(DirsCounted(r, t, s + [n]), r, t, s + [n], n)
  {
    var c := s + [n];
    forall d | d in DeepDirs(r, t, s, names + {n}) && d[|s|] == n
      ensures d in SliceOf(DirsCounted(r, t, c), r, t, c, n)
    {
      DeepDirInSlice(r, t, s, n, d);
    }
    forall d | d in SliceOf(DirsCounted(r, t, c), r, t, c, n)
      ensures d in DeepDirs(r, t, s, names + {n}) && d[|s|] == n
    {
      SliceDirIsDeep(r, t, s, n, d);
    }
  }

  lemma DeepDirInSlice(r: Run, t: Fs, s: Path, n: string, d: Path)
    requires Wf(t) && Listable(r, t, s)
    requires d in DirsCounted(r, t, s) && |d| > |s| + Lag(r) && d[|s|] == n
    ensures d in SliceOf(DirsCounted(r, t, s + [n]), r, t, s + [n], n)
  {
    var c := s + [n];
    assert d[..|s| + 1] == c;
    if |d| > |s| + 1 {
      AncestorIsDir(t, d, |s| + 1);
    } else {
      assert d == c;
    }
    ReachedStep(r, t, s, n, d);
    DirStep(r, t, s, n, d);
  }

  lemma SliceDirIsDeep(r: Run, t: Fs, s: Path, n: string, d: Path)
    requires Listable(r, t, s)
    requires d in SliceOf(DirsCounted(r, t, s + [n]), r, t, s + [n], n)
    ensures d in DirsCounted(r, t, s) && |d| > |s| + Lag(r) && d[|s|] == n
  {
    var c := s + [n];
    assert d[..|c|] == c;
    assert d[|s|] == n by { assert d[|s|] == d[..|c|][|s|]; }
    DirStep(r, t, s, n, d);
  }

  /** The part of a child's count that the parent sees: all of it when the walk enters the
      child directory, none otherwise. */
  function SliceOf(x: set<Path>, r: Run, t: Fs, c: Path, n: string): set<Path> {
    if c in t && t[c] == Dir && Descends(r, n) then x else {}
  }

  /** With every child name of s in N, the counts of the walk from s split by depth. */
  lemma FilesSplit(r: Run, t: Fs, s: Path, N: set<string>)
    requires Wf(t)
    requires forall q | q in t && IsChild(s, q) :: q[|s|] in N
    ensures FilesCounted(r, t, s) == DeepFiles(r, t, s, N) + DirectFiles(r, t, s, N)
    ensures DeepFiles(r, t, s, N) !! DirectFiles(r, t, s, N)
  {
    forall f | f in FilesCounted(r, t, s) ensures f[|s|] in N {
      assert f[..|s|] == s by { assert f[..|f| - 1][..|s|] == f[..|s|]; }
      var a := f[..|s| + 1];
      if |f| > |s| + 1 { AncestorIsDir(t, f, |s| + 1); } else { assert a == f; }
      assert IsChild(s, a) && a[|s|] == f[|s|];
    }
  }

  lemma DirsSplit(r: Run, t: Fs, s: Path, N: set<string>)
    requires Wf(t)
    requires forall q | q in t && IsChild(s, q) :: q[|s|] in N
    ensures r.side == Local ==> DirsCounted(r, t, s) == DeepDirs(r, t, s, N) + ChildDirs(r, t, s, N)
    ensures r.side == Remote ==>
      DirsCounted(r, t, s) == DeepDirs(r, t, s, N) + (if CountedDir(r, t, s, s) then {s} else {})
    ensures r.side == Local ==> DeepDirs(r, t, s, N) !! ChildDirs(r, t, s, N)
    ensures s !in DeepDirs(r, t, s, N)
  {
    forall d | d in DirsCounted(r, t, s) && |d| > |s| ensures d[|s|] in N {
      assert d[..|s|] == s;
      var a := d[..|s| + 1];
      if |d| > |s| + 1 { AncestorIsDir(t, d, |s| + 1); } else { assert a == d; }
      assert IsChild(s, a) && a[|s|] == d[|s|];
    }
    forall d | d in DirsCounted(r, t, s) && |d| == |s| ensures d == s {
      assert d[..|s|] == s;
    }
  }

  /** One more direct file of s considered: it is counted exactly when it is a file whose name is
      not excluded and (real run) whose deletion succeeds. */
  lemma DirectStep(r: Run, t: Fs, s: Path, n: string, names: set<string>)
    requires Listable(r, t, s)
    ensures DirectFiles(r, t, s, names + {n}) == DirectFiles(r, t, s, names) +
      (if s + [n] in t && t[s + [n]] == File && !Glob.MatchesAny(n, r.policy.excludeFiles)
          && (r.policy.dryRun || s + [n] !in r.faults.delete)
       then {s + [n]} else {})
  {
    var p := s + [n];
    assert p[..|p| - 1] == s && p[|p| - 1] == n;
    assert Reached(r, t, s, s) by { assert s[..|s|] == s; }
    forall f | f in DirectFiles(r, t, s, names + {n}) && f[|s|] == n ensures f == p {
      assert f[..|f| - 1][..|s|] == s;
    }
  }

  /** (local) One more child directory of s considered for removal. */
  lemma ChildStep(r: Run, t: Fs, s: Path, n: string, names: set<string>)
    ensures ChildDirs(r, t, s, names + {n}) == ChildDirs(r, t, s, names) +
      (if s + [n] in t && CountedDir(r, t, s, s + [n]) then {s + [n]} else {})
  {
    var c := s + [n];
    forall d | d in ChildDirs(r, t, s, names + {n}) && d[|s|] == n ensures d == c {
      assert d[..|s|] == s;
    }
  }

  /** The children of d left after the walk from s, counted so far, are those outside Effect.
      Then d is empty exactly when everything below it is gone. */
  lemma EmptyIffGone(r: Run, t: Fs, s: Path, d: Path, cur: Fs)
    requires Wf(t) && d in t && t[d] == Dir
    requires |r.root| <= |s| && s[..|r.root|] == r.root
    requires |s| <= |d| && d[..|s|] == s && (r.side == Local ==> |s| < |d|)
    requires forall q | q in t && IsChild(d, q) :: (q in cur <==> q !in Effect(r, t, s))
    requires forall q | q in cur && IsChild(d, q) :: q in t
    ensures Empty(cur, d) <==> forall q | q in t && Below(d, q) :: Gone(r, t, s, q)
  {
    if Empty(cur, d) {
      forall q | q in t && Below(d, q) ensures Gone(r, t, s, q) {
        EmptyThenGone(r, t, s, d, cur, q);
      }
    }
    if forall q | q in t && Below(d, q) :: Gone(r, t, s, q) {
      forall q | q in cur ensures !IsChild(d, q) {
        if IsChild(d, q) {
          GoneThenRemoved(r, t, s, d, q);
        }
      }
    }
  }

  lemma EmptyThenGone(r: Run, t: Fs, s: Path, d: Path, cur: Fs, q: Path)
    requires Wf(t) && |r.root| <= |s| && s[..|r.root|] == r.root
    requires forall q | q in t && IsChild(d, q) :: (q in cur <==> q !in Effect(r, t, s))
    requires Empty(cur, d) && q in t && Below(d, q)
    ensures Gone(r, t, s, q)
  {
    var a := q[..|d| + 1];
    if |q| > |d| + 1 { AncestorIsDir(t, q, |d| + 1); } else { assert a == q; }
    assert IsChild(d, a);
    assert a in Effect(r, t, s);
    if a != q {
      assert Below(a, q) by { assert q[..|a|] == a; }
      assert CountedDir(r, t, s, a);
    }
  }

  lemma GoneThenRemoved(r: Run, t: Fs, s: Path, d: Path, q: Path)
    requires Wf(t) && |r.root| <= |s| && s[..|r.root|] == r.root
    requires |s| <= |d| && d[..|s|] == s && (r.side == Local ==> |s| < |d|)
    requires forall q | q in t && Below(d, q) :: Gone(r, t, s, q)
    requires q in t && IsChild(d, q)
    ensures q in Effect(r, t, s)
  {
    assert q[..|r.root|] == r.root by { assert q[..|s|] == d[..|s|]; }
    assert Below(d, q);
    if t[q] == Dir {
      forall x | x in t && Below(q, x) ensures Gone(r, t, s, x) {
        assert Below(d, x) by { assert x[..|d|] == x[..|q|][..|d|]; }
      }
      assert CountedDir(r, t, s, q);
    }
  }

  /** Entering an existing child directory shrinks what is left to walk. */
  lemma SubtreeShrinks(t: Fs, s: Path, n: string)
    requires s in t
    ensures |Subtree(t, s + [n])| < |Subtree(t, s)|
  {
    var c := s + [n];
    forall q | q in Subtree(t, c) ensures q in Subtree(t, s) {
      assert q[..|s|] == q[..|c|][..|s|];
    }
    var A, B := Subtree(t, c), Subtree(t, s);
    assert s in B - A;
    assert B == A + (B - A);
    assert |B - A| >= 1;
  }

  /** Removing entries that all lie outside child c keeps agreement below c. */
  lemma AgreeBelowChild(cur: Fs, t: Fs, s: Path, n: string, gone: set<Path>)
    requires Agree(cur, t, s)
    requires forall x | x in gone :: |x| > |s| && x[|s|] != n
    ensures Agree(cur - gone, t, s + [n])
  {
    var c := s + [n];
    forall q | |c| <= |q| && q[..|c|] == c
      ensures (q in cur - gone <==> q in t) && (q in cur - gone ==> (cur - gone)[q] == t[q])
    {
      assert q[..|s|] == q[..|c|][..|s|];
      assert q[|s|] == q[..|c|][|s|];
    }
  }
}
