/** walk_dir, the recursive step of ftp_cleanup_folder: list a directory, walk each child directory
    whose name is not excluded, delete the files whose names are not excluded, then (below the
    job's root only) list the directory again and remove it when that listing is empty. Every
    backend failure is caught where it happens: a failed listing ends this directory's step, a
    failed delete or removal is skipped and not counted. */
module RemoteWalk {
  import opened Tree
  import opened Cleanup
  import opened Walk
  import Glob

  /** The walk from s, proved against the order-independent description in Cleanup: it removes
      exactly Effect(r, t0, s) and counts exactly the files and directories that description
      counts. t0 is the tree as the whole walk found it. */
  method WalkDir(b: Backend, r: Run, s: Path, ghost t0: Fs) returns (nf: nat, nd: nat)
    requires Ready(b, r, s, t0) && r.side == Remote && Agree(b.tree, t0, s)
    modifies b
    ensures b.Valid()
    ensures b.tree == old(b.tree) - Effect(r, t0, s)
    ensures nf == |FilesCounted(r, t0, s)| && nd == |DirsCounted(r, t0, s)|
    ensures Logged(r, s, old(b.calls), b.calls)
    decreases |Subtree(t0, s)|, 4
  {
    var listing := b.List(s);
    ListAllowed(r, s, old(b.calls));
    if listing.None? {
      NothingReached(r, t0, s);
      MinusNothing(b.tree);
      return 0, 0;
    }
    ghost var c0 := b.calls;
    nf, nd := WalkListed(b, r, s, t0, listing.value);
    LoggedTrans(r, s, old(b.calls), c0, b.calls);
  }

  /** walk_dir once its listing of s has succeeded. */
  method WalkListed(b: Backend, r: Run, s: Path, ghost t0: Fs, items: seq<Entry>) returns (nf: nat, nd: nat)
    requires Ready(b, r, s, t0) && r.side == Remote && Agree(b.tree, t0, s)
    requires Listable(r, t0, s) && IsListing(b.tree, s, items)
    modifies b
    ensures b.Valid()
    ensures b.tree == old(b.tree) - Effect(r, t0, s)
    ensures nf == |FilesCounted(r, t0, s)| && nd == |DirsCounted(r, t0, s)|
    ensures Logged(r, s, old(b.calls), b.calls)
    decreases |Subtree(t0, s)|, 3
  {
    ghost var T := b.tree;
    nf, nd := Clean(b, r, s, t0, items);
    Split(r, t0, s, T, items);
    // finally remove the directory if it is empty now, unless it is the job's root
    ghost var cur := b.tree;
    ghost var c3 := b.calls;
    var removed := RemoveIfEmpty(b, r, s, t0, Names(items), T);
    LoggedTrans(r, s, old(b.calls), c3, b.calls);
    if removed {
      nd := nd + 1;
    }
    Finish(r, t0, s, Names(items), T, cur, b.tree, removed);
  }

  /** The first two phases: the child directories, then the files. */
  method Clean(b: Backend, r: Run, s: Path, ghost t0: Fs, items: seq<Entry>) returns (nf: nat, nd: nat)
    requires Ready(b, r, s, t0) && r.side == Remote && Agree(b.tree, t0, s)
    requires Listable(r, t0, s) && IsListing(b.tree, s, items)
    modifies b
    ensures b.Valid()
    ensures b.tree == old(b.tree) - (if r.policy.dryRun then {} else FilesCounted(r, t0, s) + DeepDirs(r, t0, s, Names(items)))
    ensures nf == |FilesCounted(r, t0, s)| && nd == |DeepDirs(r, t0, s, Names(items))|
    ensures Logged(r, s, old(b.calls), b.calls)
    decreases |Subtree(t0, s)|, 2
  {
    ghost var T := b.tree;
    var df, dd := Descend(b, r, s, t0, items);
    ghost var c2 := b.calls;
    var ff := DeleteFiles(b, r, s, t0, items, T);
    LoggedTrans(r, s, old(b.calls), c2, b.calls);
    Split(r, t0, s, T, items);
    nf, nd := df + ff, dd;
  }

  /** First phase: walk every child directory whose name is not excluded. */
  method Descend(b: Backend, r: Run, s: Path, ghost t0: Fs, items: seq<Entry>) returns (nf: nat, nd: nat)
    requires Ready(b, r, s, t0) && r.side == Remote && Agree(b.tree, t0, s)
    requires Listable(r, t0, s) && IsListing(b.tree, s, items)
    modifies b
    ensures b.Valid()
    ensures b.tree == old(b.tree) - DescentEffect(r, t0, s, Names(items))
    ensures nf == |DeepFiles(r, t0, s, Names(items))| && nd == |DeepDirs(r, t0, s, Names(items))|
    ensures Logged(r, s, old(b.calls), b.calls)
    decreases |Subtree(t0, s)|, 1
  {
    ghost var T := b.tree;
    LoggedNone(r, s, b.calls);
    nf, nd := 0, 0;
    var k := 0;
    while k < |items|
      invariant 0 <= k <= |items|
      invariant b.Valid()
      invariant b.tree == T - DescentEffect(r, t0, s, Names(items[..k]))
      invariant nf == |DeepFiles(r, t0, s, Names(items[..k]))|
      invariant nd == |DeepDirs(r, t0, s, Names(items[..k]))|
      invariant Logged(r, s, old(b.calls), b.calls)
    {
      NamesStep(items, k);
      ghost var before := b.calls;
      nf, nd := DescendInto(b, r, s, t0, items[k], Names(items[..k]), T, nf, nd);
      LoggedTrans(r, s, old(b.calls), before, b.calls);
      k := k + 1;
    }
    assert items[..k] == items;
  }

  /** One child of the first phase: a directory whose name is not excluded is walked. */
  method DescendInto(b: Backend, r: Run, s: Path, ghost t0: Fs, e: Entry, ghost names: set<string>, ghost T: Fs,
                     nf0: nat, nd0: nat)
    returns (nf: nat, nd: nat)
    requires Ready(b, r, s, t0) && r.side == Remote && Agree(T, t0, s) && Listable(r, t0, s)
    requires b.tree == T - DescentEffect(r, t0, s, names)
    requires e.name !in names && s + [e.name] in T && (e.isDir <==> T[s + [e.name]] == Dir)
    requires nf0 == |DeepFiles(r, t0, s, names)| && nd0 == |DeepDirs(r, t0, s, names)|
    modifies b
    ensures b.Valid()
    ensures b.tree == T - DescentEffect(r, t0, s, names + {e.name})
    ensures nf == |DeepFiles(r, t0, s, names + {e.name})| && nd == |DeepDirs(r, t0, s, names + {e.name})|
    ensures Logged(r, s, old(b.calls), b.calls)
    decreases |Subtree(t0, s)|, 0
  {
    var c := s + [e.name];
    if e.isDir && !Glob.MatchesAny(e.name, r.policy.excludeFolders) {
      DescentEffectNames(r, t0, s, names);
      AgreeBelowChild(T, t0, s, e.name, DescentEffect(r, t0, s, names));
      SubtreeShrinks(t0, s, e.name);
      var f, d := WalkDir(b, r, c, t0);
      LoggedWiden(r, s, e.name, old(b.calls), b.calls);
      nf, nd := nf0 + f, nd0 + d;
      DescentEnter(r, t0, s, e.name, names);
      MinusUnion(T, DescentEffect(r, t0, s, names), Effect(r, t0, c));
    } else {
      DescentSkip(r, t0, s, e.name, names);
      LoggedNone(r, s, b.calls);
      nf, nd := nf0, nd0;
    }
  }

  /** Third phase: unless s is the job's root, list s again and remove it when the listing is
      empty (a dry run only counts it). */
  method RemoveIfEmpty(b: Backend, r: Run, s: Path, ghost t0: Fs, ghost N: set<string>, ghost T: Fs)
    returns (removed: bool)
    requires Ready(b, r, s, t0) && r.side == Remote && Agree(T, t0, s) && Listable(r, t0, s)
    requires forall q | q in t0 && IsChild(s, q) :: q[|s|] in N
    requires b.tree == T - (if r.policy.dryRun then {} else FilesCounted(r, t0, s) + DeepDirs(r, t0, s, N))
    modifies b
    ensures b.Valid()
    ensures removed <==> CountedDir(r, t0, s, s)
    ensures b.tree == old(b.tree) - (if removed && !r.policy.dryRun then {s} else {})
    ensures Logged(r, s, old(b.calls), b.calls)
  {
    removed := false;
    if s == r.root {
      assert !Below(r.root, s);
      MinusNothing(b.tree);
      LoggedNone(r, s, b.calls);
      return;
    }
    RemoveFacts(r, t0, s, N, T, b.tree);
    var again := b.List(s);
    ListAllowed(r, s, old(b.calls));
    ListingEmpty(b.tree, s, again.value);
    if again.value == [] {
      if r.policy.dryRun {
        removed := true;
      } else {
        ghost var before := b.calls;
        RmdirAllowed(r, s, before);
        removed := b.RemoveDir(s);
        LoggedTrans(r, s, old(b.calls), before, b.calls);
      }
    }
    if !removed {
      MinusNothing(old(b.tree));
    }
  }

  // ---------------------------------------------------------------------------------------
  // Set algebra behind the third phase.

  /** Facts the third phase needs: s is still there, and it is empty exactly when everything
      below it is gone. */
  lemma RmdirAllowed(r: Run, s: Path, a: seq<Call>)
    requires r.side == Remote && !r.policy.dryRun
    requires |r.root| < |s| && s[..|r.root|] == r.root
    ensures Logged(r, s, a, a + [RmdirCall(s)])
  {
    assert s[..|s|] == s;
    LoggedOne(r, s, a, RmdirCall(s));
  }

  lemma RemoveFacts(r: Run, t0: Fs, s: Path, N: set<string>, T: Fs, cur: Fs)
    requires Wf(t0) && Agree(T, t0, s) && Listable(r, t0, s) && r.side == Remote
    requires |r.root| <= |s| && s[..|r.root|] == r.root && s != r.root
    requires forall q | q in t0 && IsChild(s, q) :: q[|s|] in N
    requires cur == T - (if r.policy.dryRun then {} else FilesCounted(r, t0, s) + DeepDirs(r, t0, s, N))
    ensures s in cur && cur[s] == Dir
    ensures CountedDir(r, t0, s, s) <==>
      Empty(cur, s) && (r.policy.dryRun || s !in r.faults.rmdir)
  {
    assert s[..|s|] == s;
    assert Reached(r, t0, s, s);
    assert Below(r.root, s) by { assert |r.root| != |s|; }
    forall q | q in t0 && IsChild(s, q) ensures q in cur <==> q !in Effect(r, t0, s) {
      assert q[..|s|] == s;
      assert q in T;
    }
    forall q | q in cur && IsChild(s, q) ensures q in t0 {
      assert q[..|s|] == s;
    }
    EmptyIffGone(r, t0, s, s, cur);
  }

  /** The last step of walk_dir completes the walk's effect and count. */
  lemma Finish(r: Run, t0: Fs, s: Path, N: set<string>, T: Fs, cur: Fs, after: Fs, removed: bool)
    requires |r.root| <= |s| && s[..|r.root|] == r.root && r.side == Remote
    requires cur == T - (if r.policy.dryRun then {} else FilesCounted(r, t0, s) + DeepDirs(r, t0, s, N))
    requires after == cur - (if removed && !r.policy.dryRun then {s} else {})
    requires removed <==> CountedDir(r, t0, s, s)
    requires DirsCounted(r, t0, s) == DeepDirs(r, t0, s, N) + (if CountedDir(r, t0, s, s) then {s} else {})
    requires s !in DeepDirs(r, t0, s, N)
    ensures after == T - Effect(r, t0, s)
    ensures |DirsCounted(r, t0, s)| == |DeepDirs(r, t0, s, N)| + (if removed then 1 else 0)
  {
    FinishAlgebra(T, FilesCounted(r, t0, s), DeepDirs(r, t0, s, N), DirsCounted(r, t0, s), s,
      r.policy.dryRun, removed, cur, after);
  }

  lemma FinishAlgebra(T: Fs, F: set<Path>, D: set<Path>, DC: set<Path>, s: Path, dry: bool, counted: bool,
                      cur: Fs, after: Fs)
    requires DC == D + (if counted then {s} else {}) && s !in D
    requires cur == T - (if dry then {} else F + D)
    requires after == cur - (if counted && !dry then {s} else {})
    ensures after == T - (if dry then {} else F + DC)
    ensures |DC| == |D| + (if counted then 1 else 0)
  {
    MinusUnion(T, if dry then {} else F + D, if counted && !dry then {s} else {});
    if !dry {
      UnionAssoc(F, D, if counted then {s} else {});
    }
    CardUnion(D, if counted then {s} else {});
  }
}
