/** The storage both cleanup walks run against: a directory tree addressed by path components,
    with the three operations the walks use (list a directory, delete a file, remove a
    directory). Each operation can fail; a fixed per-path failure oracle decides which ones do. */
module Tree {

  datatype Option<T> = None | Some(value: T)

  /** A path as its sequence of names below the storage's top ([] is the top itself). */
  type Path = seq<string>

  datatype Kind = File | Dir

  /** The storage contents: every existing path and what it is. */
  type Fs = map<Path, Kind>

  /** One listing entry: (name, is_dir), as the backends' list_dir returns it. */
  datatype Entry = Entry(name: string, isDir: bool)

  /** One call a walk makes on its backend, whether or not it succeeds. */
  datatype Call = ListCall(dir: Path) | DeleteCall(file: Path) | RmdirCall(dir: Path)

  /** Paths whose listing, file deletion or directory removal fails (permission, race, network). */
  datatype Faults = Faults(list: set<Path>, delete: set<Path>, rmdir: set<Path>)

  /** q lies strictly inside directory d. */
  predicate Below(d: Path, q: Path) {
    |d| < |q| && q[..|d|] == d
  }

  /** q is a direct entry of directory d. */
  predicate IsChild(d: Path, q: Path) {
    |q| == |d| + 1 && q[..|d|] == d
  }

  /** Every entry sits in an existing directory: no orphans, and files have no entries. */
  predicate Wf(t: Fs) {
    forall q | q in t && |q| > 0 :: q[..|q| - 1] in t && t[q[..|q| - 1]] == Dir
  }

  /** Directory d has no entries. */
  predicate Empty(t: Fs, d: Path) {
    forall q | q in t :: !IsChild(d, q)
  }

  function Names(es: seq<Entry>): set<string> {
    set i | 0 <= i < |es| :: es[i].name
  }

  /** es lists directory d of t completely, once per entry, with the right kinds. */
  predicate IsListing(t: Fs, d: Path, es: seq<Entry>) {
    && (forall i, j | 0 <= i < j < |es| :: es[i].name != es[j].name)
    && (forall i | 0 <= i < |es| :: d + [es[i].name] in t && (es[i].isDir <==> t[d + [es[i].name]] == Dir))
    && (forall q | q in t && IsChild(d, q) :: q[|d|] in Names(es))
  }

  /** In a well-formed tree every proper prefix of an existing path is an existing directory. */
  lemma {:induction false} AncestorIsDir(t: Fs, q: Path, i: nat)
    requires Wf(t) && q in t && i < |q|
    ensures q[..i] in t && t[q[..i]] == Dir
    decreases |q| - i
  {
    var p := q[..|q| - 1];
    if i < |q| - 1 {
      AncestorIsDir(t, p, i);
      assert p[..i] == q[..i];
    }
  }

  /** A file has no entries below it; a directory with no direct entry has nothing below it. */
  lemma NothingBelowFileOrEmptyDir(t: Fs, d: Path, q: Path)
    requires Wf(t) && d in t && q in t && Below(d, q)
    ensures t[d] == Dir
    ensures !Empty(t, d)
  {
    AncestorIsDir(t, q, |d|);
    var a := q[..|d| + 1];
    if |q| > |d| + 1 {
      AncestorIsDir(t, q, |d| + 1);
    } else {
      assert a == q;
    }
    assert a[..|d|] == d;
    assert IsChild(d, a);
  }

  /** Walking a listing entry by entry: the names seen so far grow by one new name each step. */
  lemma NamesStep(es: seq<Entry>, k: nat)
    requires k < |es|
    requires forall i, j | 0 <= i < j < |es| :: es[i].name != es[j].name
    ensures Names(es[..k + 1]) == Names(es[..k]) + {es[k].name}
    ensures es[k].name !in Names(es[..k])
  {
    assert es[..k + 1] == es[..k] + [es[k]];
  }

  /** A complete listing is empty exactly when the directory is. */
  lemma ListingEmpty(t: Fs, d: Path, es: seq<Entry>)
    requires IsListing(t, d, es)
    ensures es == [] <==> Empty(t, d)
  {
    if es != [] {
      assert IsChild(d, d + [es[0].name]);
    }
  }

  lemma MinusUnion(t: Fs, a: set<Path>, b: set<Path>)
    ensures (t - a) - b == t - (a + b)
  {
  }

  lemma CardUnion(a: set<Path>, b: set<Path>)
    requires a !! b
    ensures |a + b| == |a| + |b|
  {
  }

  lemma MinusNothing(t: Fs)
    ensures t - {} == t
  {
  }

  lemma UnionAssoc(a: set<Path>, b: set<Path>, c: set<Path>)
    ensures (a + b) + c == a + (b + c)
    ensures (a + b) + c == (a + c) + b
  {
  }

  /** The last name of a path (the top has none). */
  function Last(q: Path): string {
    if q == [] then "" else q[|q| - 1]
  }

  /** The listing entries for the given child paths of d. */
  function EntriesOf(t: Fs, d: Path, qs: seq<Path>): (es: seq<Entry>)
    requires forall i | 0 <= i < |qs| :: qs[i] in t && IsChild(d, qs[i])
    ensures |es| == |qs|
  {
    seq(|qs|, i requires 0 <= i < |qs| => Entry(Last(qs[i]), qs[i] in t && t[qs[i]] == Dir))
  }

  /** Every child path of d once each gives a complete listing of d. */
  lemma EntriesListing(t: Fs, d: Path, qs: seq<Path>)
    requires forall i | 0 <= i < |qs| :: qs[i] in t && IsChild(d, qs[i])
    requires forall i, j | 0 <= i < j < |qs| :: qs[i] != qs[j]
    requires forall q | q in t && IsChild(d, q) :: q in qs
    ensures IsListing(t, d, EntriesOf(t, d, qs))
  {
    var es := EntriesOf(t, d, qs);
    forall i | 0 <= i < |es| ensures d + [es[i].name] == qs[i] {
      assert qs[i] == qs[i][..|d|] + [Last(qs[i])];
    }
    forall i, j | 0 <= i < j < |es| ensures es[i].name != es[j].name {
      assert d + [es[i].name] == qs[i] && d + [es[j].name] == qs[j];
    }
    forall q | q in t && IsChild(d, q) ensures q[|d|] in Names(es) {
      var i :| 0 <= i < |qs| && qs[i] == q;
      assert es[i].name == Last(q) == q[|d|];
    }
  }

  /** The storage behind one backend, updated in place by the operations. calls records every
      operation issued, in order. */
  class Backend {
    var tree: Fs
    ghost var calls: seq<Call>
    const faults: Faults

    ghost predicate Valid()
      reads this
    {
      Wf(tree)
    }

    constructor (t: Fs, f: Faults)
      requires Wf(t)
      ensures Valid() && tree == t && faults == f && calls == []
    {
      tree := t;
      faults := f;
      calls := [];
    }

    /** list_dir: the entries of d, or None when d is missing, not a directory, or unlistable. */
    method List(d: Path) returns (r: Option<seq<Entry>>)
      requires Valid()
      modifies this
      ensures Valid() && tree == old(tree) && calls == old(calls) + [ListCall(d)]
      ensures r.None? <==> !(d in tree && tree[d] == Dir) || d in faults.list
      ensures r.Some? ==> IsListing(tree, d, r.value)
    {
      calls := calls + [ListCall(d)];
      if !(d in tree && tree[d] == Dir) || d in faults.list {
        return None;
      }
      var qs := Children(d);
      EntriesListing(tree, d, qs);
      return Some(EntriesOf(tree, d, qs));
    }

    /** The paths of d's entries, each once, in the order the storage hands them out. */
    method Children(d: Path) returns (qs: seq<Path>)
      ensures forall i | 0 <= i < |qs| :: qs[i] in tree && IsChild(d, qs[i])
      ensures forall i, j | 0 <= i < j < |qs| :: qs[i] != qs[j]
      ensures forall q | q in tree && IsChild(d, q) :: q in qs
    {
      var all := set q | q in tree && IsChild(d, q);
      var left := all;
      qs := [];
      while left != {}
        invariant left <= all
        invariant forall i | 0 <= i < |qs| :: qs[i] in all && qs[i] !in left
        invariant forall i, j | 0 <= i < j < |qs| :: qs[i] != qs[j]
        invariant forall q | q in all && q !in left :: q in qs
        decreases |left|
      {
        var q :| q in left;
        qs := qs + [q];
        left := left - {q};
      }
    }

    /** delete_file / unlink: removes file f unless the oracle makes it fail. */
    method DeleteFile(f: Path) returns (ok: bool)
      requires Valid()
      modifies this
      ensures Valid()
      ensures ok <==> f in old(tree) && old(tree)[f] == File && f !in faults.delete
      ensures tree == if ok then old(tree) - {f} else old(tree)
      ensures calls == old(calls) + [DeleteCall(f)]
    {
      calls := calls + [DeleteCall(f)];
      ok := f in tree && tree[f] == File && f !in faults.delete;
      if ok {
        tree := tree - {f};
      }
    }

    /** remove_dir / rmdir. The backend does not check emptiness: the caller must have just
        seen d empty, so that removing it leaves no orphans. */
    method RemoveDir(d: Path) returns (ok: bool)
      requires Valid() && Empty(tree, d)
      modifies this
      ensures Valid()
      ensures ok <==> d in old(tree) && old(tree)[d] == Dir && d !in faults.rmdir
      ensures tree == if ok then old(tree) - {d} else old(tree)
      ensures calls == old(calls) + [RmdirCall(d)]
    {
      calls := calls + [RmdirCall(d)];
      ok := d in tree && tree[d] == Dir && d !in faults.rmdir;
      if ok {
        tree := tree - {d};
      }
    }
  }
}
