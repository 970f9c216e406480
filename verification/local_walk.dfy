/** local_cleanup_folder: os.walk from the job's folder, bottom-up. Each directory's subtree is
    walked before the directory itself is handled; os.walk enters every child directory,
    whatever its name. Handling a directory deletes its files whose names are not excluded and
    then, for each child directory whose name is not excluded, lists it and removes it when that
    listing is empty. Every failure is caught where it happens and only skips that entry. */
module LocalWalk {
  import opened Tree
  import opened Cleanup
  import opened Walk
  import Glob

  /** local_cleanup_folder: a folder that is missing or is not a directory gives (0, 0) and
      changes nothing; otherwise the walk removes exactly Effect and counts what it describes. */
  method LocalCleanupFolder(b: Backend, r: Run) returns (nf: nat, nd: nat)
    requires b.Valid() && r.side == Local && b.faults == r.faults
    modifies b
    ensures b.Valid()
    ensures b.tree == old(b.tree) - Effect(r, old(b.tree), r.root)
    ensures nf == |FilesCounted(r, old(b.tree), r.root)| && nd == |DirsCounted(r, old(b.tree), r.root)|
    ensures !(r.root in old(b.tree) && old(b.tree)[r.root] == Dir) ==>
      nf == 0 && nd == 0 && b.tree == old(b.tree) && b.calls == old(b.calls)
    ensures Logged(r, r.root, old(b.calls), b.calls)
  {
    assert r.root[..|r.root|] == r.root;
    LoggedNone(r, r.root, b.calls);
    if !(r.root in b.tree && b.tree[r.root] == Dir) {
      NothingReached(r, b.tree, r.root);
      MinusNothing(b.tree);
      return 0, 0;
    }
    nf, nd := WalkTree(b, r, r.root, b.tree);
  }

  /** The os.walk step for directory s, children first. t0 is the tree as the walk found it. */
  method WalkTree(b: Backend, r: Run, s: Path, ghost t0: Fs) returns (nf: nat, nd: nat)
    requires Ready(b, r, s, t0) && r.side == Local && Agree(b.tree, t0, s)
    modifies b
    ensures b.Valid()
    ensures b.tree == old(b.tree) - Effect(r, t0, s)
    ensures nf == |FilesCounted(r, t0, s)| && nd == |DirsCounted(r, t0, s)|
    ensures Logged(r, s, old(b.calls), b.calls)
    decreases |Subtree(t0, s)|, 3
  {
    var listing := b.List(s);
    ListAllowed(r, s, old(b.calls));
    if listing.None? {
      NothingReached(r, t0, s);
      MinusNothing(b.tree);
      return 0, 0;
    }
    ghost var c0 := b.calls;
    nf, nd := WalkListed(b, r, s, t0, listing.value);
    LoggedTrans(r, s, old(b.calls), c0, b.calls);
  }

  /** The step for s once its listing has succeeded: the subtrees first, then the files, then the
      empty child directories. */
  method WalkListed(b: Backend, r: Run, s: Path, ghost t0: Fs, items: seq<Entry>) returns (nf: nat, nd: nat)
    requires Ready(b, r, s, t0) && r.side == Local && Agree(b.tree, t0, s)
    requires Listable(r, t0, s) && IsListing(b.tree, s, items)
    modifies b
    ensures b.Valid()
    ensures b.tree == old(b.tree) - Effect(r, t0, s)
    ensures nf == |FilesCounted(r, t0, s)| && nd == |DirsCounted(r, t0, s)|
    ensures Logged(r, s, old(b.calls), b.calls)
    decreases |Subtree(t0, s)|, 2
  {
    ghost var T := b.tree;
    var df, dd := Descend(b, r, s, t0, items);
    ghost var c2 := b.calls;
    var ff := DeleteFiles(b, r, s, t0, items, T);
    LoggedTrans(r, s, old(b.calls), c2, b.calls);
    Split(r, t0, s, T, items);
    ghost var c3 := b.calls;
    var cd := RemoveEmptyDirs(b, r, s, t0, items, T);
    LoggedTrans(r, s, old(b.calls), c3, b.calls);
    nf, nd := df + ff, dd + cd;
    UnionAssoc(FilesCounted(r, t0, s), DeepDirs(r, t0, s, Names(items)), ChildDirs(r, t0, s, Names(items)));
    MinusUnion(T, DescentEffect(r, t0, s, Names(items)) + DeletedSoFar(r, t0, s, Names(items)),
      RemovedSoFar(r, t0, s, Names(items)));
  }

  /** os.walk walks every child directory before yielding s. */
  method Descend(b: Backend, r: Run, s: Path, ghost t0: Fs, items: seq<Entry>) returns (nf: nat, nd: nat)
    requires Ready(b, r, s, t0) && r.side == Local && Agree(b.tree, t0, s)
    requires Listable(r, t0, s) && IsListing(b.tree, s, items)
    modifies b
    ensures b.Valid()
    ensures b.tree == old(b.tree) - DescentEffect(r, t0, s, Names(items))
    ensures nf == |DeepFiles(r, t0, s, Names(items))| && nd == |DeepDirs(r, t0, s, Names(items))|
    ensures Logged(r, s, old(b.calls), b.calls)
    decreases |Subtree(t0, s)|, 1
  {
    ghost var T := b.tree;
    LoggedNone(r, s, b.calls);
    nf, nd := 0, 0;
    var k := 0;
    while k < |items|
      invariant 0 <= k <= |items|
      invariant b.Valid()
      invariant b.tree == T - DescentEffect(r, t0, s, Names(items[..k]))
      invariant nf == |DeepFiles(r, t0, s, Names(items[..k]))|
      invariant nd == |DeepDirs(r, t0, s, Names(items[..k]))|
      invariant Logged(r, s, old(b.calls), b.calls)
    {
      NamesStep(items, k);
      ghost var before := b.calls;
      nf, nd := DescendInto(b, r, s, t0, items[k], Names(items[..k]), T, nf, nd);
      LoggedTrans(r, s, old(b.calls), before, b.calls);
      k := k + 1;
    }
    assert items[..k] == items;
  }

  /** One child of s: a directory is walked, whatever its name. */
  method DescendInto(b: Backend, r: Run, s: Path, ghost t0: Fs, e: Entry, ghost names: set<string>, ghost T: Fs,
                     nf0: nat, nd0: nat)
    returns (nf: nat, nd: nat)
    requires Ready(b, r, s, t0) && r.side == Local && Agree(T, t0, s) && Listable(r, t0, s)
    requires b.tree == T - DescentEffect(r, t0, s, names)
    requires e.name !in names && s + [e.name] in T && (e.isDir <==> T[s + [e.name]] == Dir)
    requires nf0 == |DeepFiles(r, t0, s, names)| && nd0 == |DeepDirs(r, t0, s, names)|
    modifies b
    ensures b.Valid()
    ensures b.tree == T - DescentEffect(r, t0, s, names + {e.name})
    ensures nf == |DeepFiles(r, t0, s, names + {e.name})| && nd == |DeepDirs(r, t0, s, names + {e.name})|
    ensures Logged(r, s, old(b.calls), b.calls)
    decreases |Subtree(t0, s)|, 0
  {
    var c := s + [e.name];
    if e.isDir {
      DescentEffectNames(r, t0, s, names);
      AgreeBelowChild(T, t0, s, e.name, DescentEffect(r, t0, s, names));
      SubtreeShrinks(t0, s, e.name);
      var f, d := WalkTree(b, r, c, t0);
      LoggedWiden(r, s, e.name, old(b.calls), b.calls);
      nf, nd := nf0 + f, nd0 + d;
      DescentEnter(r, t0, s, e.name, names);
      MinusUnion(T, DescentEffect(r, t0, s, names), Effect(r, t0, c));
    } else {
      DescentSkip(r, t0, s, e.name, names);
      LoggedNone(r, s, b.calls);
      nf, nd := nf0, nd0;
    }
  }

  /** The directory step's last loop: each child directory whose name is not excluded is
      listed, and removed when the listing is empty (a dry run only counts it). */
  method RemoveEmptyDirs(b: Backend, r: Run, s: Path, ghost t0: Fs, items: seq<Entry>, ghost T: Fs)
    returns (nd: nat)
    requires Ready(b, r, s, t0) && r.side == Local && Agree(T, t0, s) && Listable(r, t0, s)
    requires IsListing(T, s, items)
    requires NamesCover(t0, s, Names(items))
    requires FilesDone(r, t0, s, Names(items), T, b.tree)
    modifies b
    ensures b.Valid()
    ensures b.tree == old(b.tree) - RemovedSoFar(r, t0, s, Names(items))
    ensures nd == |ChildDirs(r, t0, s, Names(items))|
    ensures Logged(r, s, old(b.calls), b.calls)
  {
    ghost var cur := b.tree;
    LoggedNone(r, s, b.calls);
    nd := 0;
    var k := 0;
    while k < |items|
      invariant 0 <= k <= |items|
      invariant b.Valid()
      invariant b.tree == cur - RemovedSoFar(r, t0, s, Names(items[..k]))
      invariant nd == |ChildDirs(r, t0, s, Names(items[..k]))|
      invariant Logged(r, s, old(b.calls), b.calls)
    {
      NamesStep(items, k);
      ghost var before := b.calls;
      nd := RemoveChild(b, r, s, t0, items[k], Names(items[..k]), Names(items), T, cur, nd);
      LoggedTrans(r, s, old(b.calls), before, b.calls);
      k := k + 1;
    }
    assert items[..k] == items;
  }

  /** One child directory of the last loop. */
  method RemoveChild(b: Backend, r: Run, s: Path, ghost t0: Fs, e: Entry, ghost names: set<string>,
                     ghost N: set<string>, ghost T: Fs, ghost cur: Fs, nd0: nat)
    returns (nd: nat)
    requires Ready(b, r, s, t0) && r.side == Local && Agree(T, t0, s) && Listable(r, t0, s)
    requires e.name !in names && s + [e.name] in T && (e.isDir <==> T[s + [e.name]] == Dir)
    requires NamesCover(t0, s, N)
    requires FilesDone(r, t0, s, N, T, cur)
    requires b.tree == cur - RemovedSoFar(r, t0, s, names)
    requires nd0 == |ChildDirs(r, t0, s, names)|
    modifies b
    ensures b.Valid()
    ensures b.tree == cur - RemovedSoFar(r, t0, s, names + {e.name})
    ensures nd == |ChildDirs(r, t0, s, names + {e.name})|
    ensures Logged(r, s, old(b.calls), b.calls)
  {
    var c := s + [e.name];
    ChildCount(r, t0, s, e.name, names);
    LoggedNone(r, s, b.calls);
    nd := nd0;
    if e.isDir && !Glob.MatchesAny(e.name, r.policy.excludeFolders) {
      ChildFacts(r, t0, s, e.name, names, N, T, cur, b.tree);
      ChildCallsAllowed(r, s, e.name, old(b.calls));
      var listing := b.List(c);
      if listing.Some? {
        ListingEmpty(b.tree, c, listing.value);
        if listing.value == [] {
          if r.policy.dryRun {
            nd := nd0 + 1;
          } else {
            ChildCallsAllowed(r, s, e.name, b.calls);
            ghost var before := b.calls;
            var ok := b.RemoveDir(c);
            LoggedTrans(r, s, old(b.calls), before, b.calls);
            if ok {
              nd := nd0 + 1;
              MinusUnion(cur, RemovedSoFar(r, t0, s, names), {c});
            }
          }
        }
      }
    } else {
      ChildNotCounted(r, t0, s, e.name, T);
    }
  }

  // ---------------------------------------------------------------------------------------
  // Facts behind the last loop.

  /** Every entry of s in t0 has its name in N. */
  ghost predicate NamesCover(t0: Fs, s: Path, N: set<string>) {
    forall q | q in t0 && IsChild(s, q) :: q[|s|] in N
  }

  /** cur is T once the first two phases have removed what they remove. */
  ghost predicate FilesDone(r: Run, t0: Fs, s: Path, N: set<string>, T: Fs, cur: Fs) {
    cur == T - (if r.policy.dryRun then {} else FilesCounted(r, t0, s) + DeepDirs(r, t0, s, N))
  }

  /** What the last loop has removed once it has handled the children named in names. */
  ghost function RemovedSoFar(r: Run, t0: Fs, s: Path, names: set<string>): set<Path> {
    if r.policy.dryRun then {} else ChildDirs(r, t0, s, names)
  }

  /** The last loop may list a child directory whose name is not excluded and, in a real run,
      remove it. */
  lemma ChildCallsAllowed(r: Run, s: Path, n: string, a: seq<Call>)
    requires r.side == Local && !Glob.MatchesAny(n, r.policy.excludeFolders)
    requires |r.root| <= |s| && s[..|r.root|] == r.root
    ensures Logged(r, s, a, a + [ListCall(s + [n])])
    ensures !r.policy.dryRun ==> Logged(r, s, a, a + [RmdirCall(s + [n])])
  {
    var c := s + [n];
    assert c[..|s|] == s && c[|c| - 1] == n;
    assert c[..|r.root|] == r.root by { assert c[..|r.root|] == s[..|r.root|]; }
    LoggedOne(r, s, a, ListCall(c));
    if !r.policy.dryRun {
      LoggedOne(r, s, a, RmdirCall(c));
    }
  }

  lemma ChildCount(r: Run, t0: Fs, s: Path, n: string, names: set<string>)
    requires n !in names
    ensures |ChildDirs(r, t0, s, names + {n})| ==
      |ChildDirs(r, t0, s, names)| + (if s + [n] in t0 && CountedDir(r, t0, s, s + [n]) then 1 else 0)
    ensures RemovedSoFar(r, t0, s, names + {n}) ==
      RemovedSoFar(r, t0, s, names) +
      (if !r.policy.dryRun && s + [n] in t0 && CountedDir(r, t0, s, s + [n]) then {s + [n]} else {})
  {
    var c := s + [n];
    ChildStep(r, t0, s, n, names);
    assert c !in ChildDirs(r, t0, s, names) by { assert c[|s|] == n; }
    CardUnion(ChildDirs(r, t0, s, names), if c in t0 && CountedDir(r, t0, s, c) then {c} else {});
  }

  /** A child the last loop skips is not counted: it is a file, or its name is excluded. */
  lemma ChildNotCounted(r: Run, t0: Fs, s: Path, n: string, T: Fs)
    requires Agree(T, t0, s) && s + [n] in T && r.side == Local
    requires !(T[s + [n]] == Dir && !Glob.MatchesAny(n, r.policy.excludeFolders))
    ensures !(s + [n] in t0 && CountedDir(r, t0, s, s + [n]))
  {
    var c := s + [n];
    assert c[..|s|] == s;
    assert c[|c| - 1] == n;
  }

  /** The child directory c the last loop checks is still there, and it is counted exactly when
      it lists successfully with no entries and (real run) its removal succeeds. */
  lemma ChildFacts(r: Run, t0: Fs, s: Path, n: string, names: set<string>, N: set<string>,
                   T: Fs, cur: Fs, now: Fs)
    requires Wf(t0) && r.side == Local && Agree(T, t0, s) && Listable(r, t0, s)
    requires |r.root| <= |s| && s[..|r.root|] == r.root
    requires n !in names && s + [n] in T && T[s + [n]] == Dir && !Glob.MatchesAny(n, r.policy.excludeFolders)
    requires NamesCover(t0, s, N)
    requires FilesDone(r, t0, s, N, T, cur)
    requires now == cur - RemovedSoFar(r, t0, s, names)
    ensures s + [n] in now && now[s + [n]] == Dir
    ensures s + [n] in t0 && (CountedDir(r, t0, s, s + [n]) <==>
      s + [n] !in r.faults.list && Empty(now, s + [n]) && (r.policy.dryRun || s + [n] !in r.faults.rmdir))
  {
    var c := s + [n];
    ChildStillThere(r, t0, s, n, names, N, T, cur, now);
    assert Below(r.root, c) by { assert c[..|r.root|] == s[..|r.root|]; }
    ReachedChild(r, t0, s, n);
    ChildEntriesLeft(r, t0, s, n, names, N, T, cur, now);
    EmptyIffGone(r, t0, s, c, now);
    CountedChild(r, t0, s, c, now);
  }

  lemma ChildStillThere(r: Run, t0: Fs, s: Path, n: string, names: set<string>, N: set<string>,
                        T: Fs, cur: Fs, now: Fs)
    requires r.side == Local && Agree(T, t0, s) && n !in names && s + [n] in T && T[s + [n]] == Dir
    requires FilesDone(r, t0, s, N, T, cur)
    requires now == cur - RemovedSoFar(r, t0, s, names)
    ensures s + [n] in now && now[s + [n]] == Dir && s + [n] in t0 && t0[s + [n]] == Dir
  {
    var c := s + [n];
    assert c in t0 && t0[c] == Dir by { assert c[..|s|] == s; }
    assert c !in FilesCounted(r, t0, s);
    assert c !in DeepDirs(r, t0, s, N);
    assert c !in ChildDirs(r, t0, s, names) by { assert c[|s|] == n; }
  }

  /** A child directory of s, below the root, spared by no name, is counted exactly when it is
      reached, empty when checked, and (real run) removable. */
  lemma CountedChild(r: Run, t0: Fs, s: Path, c: Path, now: Fs)
    requires c in t0 && t0[c] == Dir && Below(r.root, c) && |c| == |s| + 1 && KeptName(r, c)
    requires Empty(now, c) <==> forall q | q in t0 && Below(c, q) :: Gone(r, t0, s, q)
    requires Reached(r, t0, s, c) <==> Listable(r, t0, c)
    ensures CountedDir(r, t0, s, c) <==>
      c !in r.faults.list && Empty(now, c) && (r.policy.dryRun || c !in r.faults.rmdir)
  {
  }

  /** The entries of child c = s + [n] still there are those of t0 the walk from s does not remove. */
  lemma ChildEntriesLeft(r: Run, t0: Fs, s: Path, n: string, names: set<string>, N: set<string>,
                         T: Fs, cur: Fs, now: Fs)
    requires Wf(t0) && r.side == Local && Agree(T, t0, s)
    requires |r.root| <= |s| && s[..|r.root|] == r.root
    requires NamesCover(t0, s, N)
    requires FilesDone(r, t0, s, N, T, cur)
    requires now == cur - RemovedSoFar(r, t0, s, names)
    ensures forall q | q in t0 && IsChild(s + [n], q) :: (q in now <==> q !in Effect(r, t0, s))
    ensures forall q | q in now && IsChild(s + [n], q) :: q in t0
  {
    var c := s + [n];
    forall q | q in t0 && IsChild(c, q) ensures q in now <==> q !in Effect(r, t0, s) {
      BelowChildFacts(r, t0, s, n, N, q);
      assert q in T;
    }
    forall q | q in now && IsChild(c, q) ensures q in t0 {
      assert q[..|s|] == s by { assert q[..|s|] == q[..|c|][..|s|]; }
    }
  }

  lemma ReachedChild(r: Run, t0: Fs, s: Path, n: string)
    requires Listable(r, t0, s) && r.side == Local
    ensures Reached(r, t0, s, s + [n]) <==> Listable(r, t0, s + [n])
  {
    var c := s + [n];
    assert c[..|s|] == s && c[..|c|] == c;
  }

  /** An entry of child c = s + [n] is removed by the walk from s exactly when it is among the
      files or the deeper directories that walk counts. */
  lemma BelowChildFacts(r: Run, t0: Fs, s: Path, n: string, N: set<string>, q: Path)
    requires Wf(t0) && r.side == Local && |r.root| <= |s| && s[..|r.root|] == r.root
    requires NamesCover(t0, s, N)
    requires q in t0 && IsChild(s + [n], q)
    ensures q[..|s|] == s && q[|s|] == n && |q| == |s| + 2
    ensures q in Effect(r, t0, s) <==>
      !r.policy.dryRun && q in FilesCounted(r, t0, s) + DeepDirs(r, t0, s, N)
  {
    var c := s + [n];
    assert q[..|s|] == s by { assert q[..|s|] == q[..|c|][..|s|]; }
    assert q[|s|] == n by { assert q[|s|] == q[..|c|][|s|]; }
    AncestorIsDir(t0, q, |s| + 1);
    assert q[..|s| + 1] == c;
    assert IsChild(s, c);
  }
}
