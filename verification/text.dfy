/** The string helpers around the cleanup engine: splitting and joining (str.split, str.join,
    str.splitlines), parse_csv and the line lists of the job form, the remote path helpers
    (norm_remote, the root normalisation of ftp_cleanup_folder, list_dir's directory argument,
    the NLST basename, walk_dir's child paths), weekday_name, and int()/str() on the numbers of
    the forms. */
module Text {
  import Glob
  import Tree

  // ---------------------------------------------------------------------------------------
  // Splitting and joining

  /** No character of x is one of seps. */
  predicate Free(x: string, seps: set<char>) {
    forall j | 0 <= j < |x| :: x[j] !in seps
  }

  /** The pieces of s between separator characters, in order (str.split with one separator;
      with the line-break set, str.splitlines up to empty pieces). There is always at least one
      piece; two adjacent separators give an empty piece. */
  function Fields(s: string, seps: set<char>): (parts: seq<string>)
    ensures |parts| >= 1
    ensures forall i | 0 <= i < |parts| :: Free(parts[i], seps)
  {
    if s == [] then [""]
    else
      var rest := Fields(s[1..], seps);
      if s[0] in seps then [""] + rest else [[s[0]] + rest[0]] + rest[1..]
  }

  /** sep.join(parts) for a non-empty list. */
  function Join(parts: seq<string>, sep: char): string
    requires |parts| >= 1
  {
    if |parts| == 1 then parts[0] else parts[0] + [sep] + Join(parts[1..], sep)
  }

  /** sep.join(xs): the empty list joins to the empty string. */
  function JoinList(xs: seq<string>, sep: char): string {
    if xs == [] then "" else Join(xs, sep)
  }

  /** Splitting at sep undoes joining with sep. */
  lemma {:induction false} FieldsOfJoin(parts: seq<string>, sep: char, seps: set<char>)
    requires |parts| >= 1 && sep in seps
    requires forall i | 0 <= i < |parts| :: Free(parts[i], seps)
    ensures Fields(Join(parts, sep), seps) == parts
    decreases |parts|
  {
    if |parts| == 1 {
      FieldsOfFree(parts[0], seps);
    } else {
      FieldsOfJoin(parts[1..], sep, seps);
      FieldsAfterPiece(parts[0], sep, Join(parts[1..], sep), seps);
      assert parts == [parts[0]] + parts[1..];
      assert parts[0] + [sep] + Join(parts[1..], sep) == parts[0] + ([sep] + Join(parts[1..], sep));
    }
  }

  lemma {:induction false} FieldsOfFree(x: string, seps: set<char>)
    requires Free(x, seps)
    ensures Fields(x, seps) == [x]
    decreases |x|
  {
    if x != [] {
      FieldsOfFree(x[1..], seps);
      assert [x[0]] + x[1..] == x;
    }
  }

  lemma {:induction false} FieldsAfterPiece(x: string, sep: char, rest: string, seps: set<char>)
    requires Free(x, seps) && sep in seps
    ensures Fields(x + ([sep] + rest), seps) == [x] + Fields(rest, seps)
    decreases |x|
  {
    var s := x + ([sep] + rest);
    if x == [] {
      assert s == [sep] + rest;
      assert s[1..] == rest;
    } else {
      assert s[0] == x[0] && s[1..] == x[1..] + ([sep] + rest);
      FieldsAfterPiece(x[1..], sep, rest, seps);
      assert [x[0]] + x[1..] == x;
    }
  }

  /** Joining the pieces with the separator gives back the string. */
  lemma {:induction false} JoinOfFields(s: string, sep: char)
    ensures Join(Fields(s, {sep}), sep) == s
    decreases |s|
  {
    if s != [] {
      JoinOfFields(s[1..], sep);
      var rest := Fields(s[1..], {sep});
      if s[0] == sep {
        assert Join([""] + rest, sep) == [sep] + Join(rest, sep) by {
          assert ([""] + rest)[1..] == rest;
        }
      } else {
        var f := [[s[0]] + rest[0]] + rest[1..];
        if |rest| == 1 {
        } else {
          assert f[1..] == rest[1..];
          assert Join(rest, sep) == rest[0] + [sep] + Join(rest[1..], sep);
        }
      }
    }
  }

  /** A list item as the forms keep it: trimmed and not blank. */
  predicate Clean(x: string) {
    x != [] && Glob.Trim(x) == x
  }

  /** The trimmed, non-blank pieces, in order: [x.strip() for x in xs if x.strip()]. */
  function Keep(xs: seq<string>): (r: seq<string>)
    ensures |r| <= |xs|
  {
    if xs == [] then []
    else if Glob.Trim(xs[0]) == [] then Keep(xs[1..])
    else [Glob.Trim(xs[0])] + Keep(xs[1..])
  }

  /** Every kept item is clean. */
  lemma {:induction false} KeepIsClean(xs: seq<string>)
    ensures forall i | 0 <= i < |Keep(xs)| :: Clean(Keep(xs)[i])
    decreases |xs|
  {
    if xs != [] {
      KeepIsClean(xs[1..]);
      var t := Glob.Trim(xs[0]);
      var rest := Keep(xs[1..]);
      if t != [] {
        Glob.TrimIdempotent(xs[0]);
        assert Clean(t);
        assert Keep(xs) == [t] + rest;
        forall i | 0 <= i < |Keep(xs)| ensures Clean(Keep(xs)[i]) {
          if i > 0 {
            assert Keep(xs)[i] == rest[i - 1];
          }
        }
      }
    }
  }

  /** Trimming removes characters from the ends only. */
  lemma TrimFree(x: string, seps: set<char>)
    requires Free(x, seps)
    ensures Free(Glob.Trim(x), seps)
  {
    var l := Glob.StripLeft(x);
    SliceFree(x, |x| - |l|, |x|, seps);
    SliceFree(l, 0, |Glob.StripRight(l)|, seps);
  }

  lemma SliceFree(x: string, i: nat, j: nat, seps: set<char>)
    requires Free(x, seps) && i <= j <= |x|
    ensures Free(x[i..j], seps)
  {
    forall k | 0 <= k < j - i ensures x[i..j][k] !in seps {
      assert x[i..j][k] == x[i + k];
    }
  }

  lemma {:induction false} KeepFree(xs: seq<string>, seps: set<char>)
    requires forall i | 0 <= i < |xs| :: Free(xs[i], seps)
    ensures forall i | 0 <= i < |Keep(xs)| :: Free(Keep(xs)[i], seps)
    decreases |xs|
  {
    if xs != [] {
      TrimFree(xs[0], seps);
      KeepFree(xs[1..], seps);
    }
  }

  /** Items already trimmed and non-blank are all kept, unchanged. */
  lemma {:induction false} KeepClean(xs: seq<string>)
    requires forall i | 0 <= i < |xs| :: Clean(xs[i])
    ensures Keep(xs) == xs
    decreases |xs|
  {
    if xs != [] {
      KeepClean(xs[1..]);
      assert [xs[0]] + xs[1..] == xs;
    }
  }

  /** parse_csv: the trimmed non-blank comma-separated items. */
  function ParseCsv(s: string): seq<string> {
    Keep(Fields(s, {','}))
  }

  /** parse_csv gives trimmed, non-blank items without commas. */
  lemma ParseCsvItems(s: string)
    ensures forall i | 0 <= i < |ParseCsv(s)| ::
      Clean(ParseCsv(s)[i]) && Free(ParseCsv(s)[i], {','})
  {
    KeepIsClean(Fields(s, {','}));
    KeepFree(Fields(s, {','}), {','});
  }

  /** The job form shows an exclude list as ",".join(list) and saves it back through parse_csv:
      a list of trimmed, non-blank, comma-free patterns survives the round trip unchanged. */
  lemma ParseCsvOfJoin(xs: seq<string>)
    requires forall i | 0 <= i < |xs| :: Clean(xs[i]) && Free(xs[i], {','})
    ensures ParseCsv(JoinList(xs, ',')) == xs
  {
    if xs != [] {
      FieldsOfJoin(xs, ',', {','});
    }
    KeepClean(xs);
  }

  /** The characters str.splitlines breaks at. */
  const LineBreaks: set<char> :=
    {'\n', '\r', '\U{0b}', '\U{0c}', '\U{1c}', '\U{1d}', '\U{1e}', '\U{85}', '\U{2028}', '\U{2029}'}

  /** [ln.strip() for ln in s.splitlines() if ln.strip()]. Splitting at every line-break
      character rather than at "\r\n" as one only adds empty pieces, which are dropped. */
  function ParseLines(s: string): seq<string> {
    Keep(Fields(s, LineBreaks))
  }

  lemma {:induction false} FieldsSnocSep(s: string, sep: char, seps: set<char>)
    requires sep in seps
    ensures Fields(s + [sep], seps) == Fields(s, seps) + [""]
    decreases |s|
  {
    if s == [] {
      assert [sep][1..] == [];
    } else {
      assert (s + [sep])[1..] == s[1..] + [sep];
      FieldsSnocSep(s[1..], sep, seps);
    }
  }

  lemma {:induction false} KeepAppend(xs: seq<string>, ys: seq<string>)
    ensures Keep(xs + ys) == Keep(xs) + Keep(ys)
    decreases |xs|
  {
    if xs == [] {
      assert xs + ys == ys;
    } else {
      assert (xs + ys)[1..] == xs[1..] + ys;
      KeepAppend(xs[1..], ys);
    }
  }

  /** The job form shows a folder list as "\n".join(list) in a text box, which hands its contents
      back with a newline appended; saving parses it line by line. A list of trimmed, non-blank
      entries without line breaks survives the round trip unchanged. */
  lemma ParseLinesOfText(xs: seq<string>)
    requires forall i | 0 <= i < |xs| :: Clean(xs[i]) && Free(xs[i], LineBreaks)
    ensures ParseLines(JoinList(xs, '\n') + "\n") == xs
  {
    KeepFieldsOfText(xs, '\n', LineBreaks);
  }

  lemma KeepFieldsOfText(xs: seq<string>, sep: char, seps: set<char>)
    requires sep in seps
    requires forall i | 0 <= i < |xs| :: Clean(xs[i]) && Free(xs[i], seps)
    ensures Keep(Fields(JoinList(xs, sep) + [sep], seps)) == xs
  {
    var body := JoinList(xs, sep);
    FieldsSnocSep(body, sep, seps);
    KeepAppend(Fields(body, seps), [""]);
    assert Keep([""]) == [];
    if xs != [] {
      FieldsOfJoin(xs, sep, seps);
      KeepClean(xs);
    } else {
      assert Fields(body, seps) == [""];
    }
  }

  /** pathlib.Path(p) on a POSIX system, as a path of names: repeated slashes and "." names
      collapse away. */
  function LocalPath(p: string): (q: seq<string>)
    ensures forall i | 0 <= i < |q| :: q[i] != "" && q[i] != "." && Free(q[i], {'/'})
  {
    Proper(Fields(p, {'/'}))
  }

  function Proper(xs: seq<string>): (r: seq<string>)
    requires forall i | 0 <= i < |xs| :: Free(xs[i], {'/'})
    ensures forall i | 0 <= i < |r| :: r[i] != "" && r[i] != "." && Free(r[i], {'/'})
  {
    if xs == [] then []
    else if xs[0] == "" || xs[0] == "." then Proper(xs[1..])
    else [xs[0]] + Proper(xs[1..])
  }

  // ---------------------------------------------------------------------------------------
  // Remote paths

  /** norm_remote: every backslash becomes a slash; nothing else changes. */
  function NormRemote(p: string): (r: string)
    ensures |r| == |p| && '\\' !in r
    ensures forall i | 0 <= i < |p| :: r[i] == (if p[i] == '\\' then '/' else p[i])
  {
    seq(|p|, i requires 0 <= i < |p| => if p[i] == '\\' then '/' else p[i])
  }

  /** s.rstrip(c): s without its trailing run of c. */
  function RStrip(s: string, c: char): (r: string)
    ensures |r| <= |s| && r == s[..|r|]
    ensures forall i | |r| <= i < |s| :: s[i] == c
    ensures r == [] || r[|r| - 1] != c
  {
    if s == [] || s[|s| - 1] != c then s else RStrip(s[..|s| - 1], c)
  }

  /** The root normalisation of ftp_cleanup_folder: backslashes become slashes, trailing slashes
      go, and a leading slash is added when missing. */
  function RemoteRoot(p: string): (r: string)
    ensures |r| > 0 && r[0] == '/'
  {
    var x := RStrip(NormRemote(p), '/');
    if |x| > 0 && x[0] == '/' then x else "/" + x
  }

  /** A normalised root is absolute, has no backslash, and ends in a slash only when it is "/". */
  predicate IsRoot(r: string) {
    |r| > 0 && r[0] == '/' && '\\' !in r && (r == "/" || r[|r| - 1] != '/')
  }

  lemma RemoteRootIsRoot(p: string)
    ensures IsRoot(RemoteRoot(p))
  {
    var x := RStrip(NormRemote(p), '/');
    assert forall i | 0 <= i < |x| :: x[i] == NormRemote(p)[i];
    if !(|x| > 0 && x[0] == '/') {
      assert forall i | 1 <= i < |"/" + x| :: ("/" + x)[i] == x[i - 1];
    }
  }

  /** Normalising a normalised root changes nothing. */
  lemma RemoteRootIdempotent(p: string)
    ensures RemoteRoot(RemoteRoot(p)) == RemoteRoot(p)
  {
    var r := RemoteRoot(p);
    RemoteRootIsRoot(p);
    RootFixed(r);
  }

  lemma RootFixed(r: string)
    requires IsRoot(r)
    ensures RemoteRoot(r) == r
  {
    assert NormRemote(r) == r;
    if r == "/" {
      assert RStrip(r, '/') == "";
    } else {
      assert RStrip(r, '/') == r;
    }
  }

  /** list_dir's directory argument: remote_dir.rstrip("/") or "/". */
  function ListDirPath(d: string): (r: string)
    ensures r != []
  {
    var x := RStrip(d, '/');
    if x == [] then "/" else x
  }

  /** list_dir is handed a normalised root unchanged. */
  lemma ListDirOfRoot(r: string)
    requires IsRoot(r)
    ensures ListDirPath(r) == r
  {
    if r == "/" {
      assert RStrip(r, '/') == "";
    }
  }

  /** The NLST fallback's basename: n.rstrip("/").split("/")[-1]. */
  function NlstBasename(n: string): (b: string)
    ensures '/' !in b
  {
    var parts := Fields(RStrip(n, '/'), {'/'});
    var b := parts[|parts| - 1];
    assert Free(b, {'/'});
    b
  }

  /** Entries of the NLST fallback are kept unless their basename is "", "." or "..". */
  predicate KeptNlstName(b: string) {
    b != "" && b != "." && b != ".."
  }

  /** The NLST filter drops an answer exactly when it names the directory itself or its parent,
      whether the server answers with bare names or full paths; a bare "/" is dropped too. */
  lemma NlstKeptNames(dir: string, b: string)
    requires b != "" && '/' !in b
    ensures KeptNlstName(NlstBasename(b)) <==> b != "." && b != ".."
    ensures KeptNlstName(NlstBasename(dir + "/" + b)) <==> b != "." && b != ".."
    ensures !KeptNlstName(NlstBasename("/"))
  {
    NlstBasenameOfPath(dir, b);
    assert RStrip("/", '/') == "";
    FieldsOfFree("", {'/'});
  }

  /** A server answering NLST with bare names or with full paths, with or without a trailing
      slash, yields the same basename. */
  lemma NlstBasenameOfPath(dir: string, b: string)
    requires b != "" && '/' !in b
    ensures NlstBasename(b) == b
    ensures NlstBasename(b + "/") == b
    ensures NlstBasename(dir + "/" + b) == b
    ensures NlstBasename(dir + "/" + b + "/") == b
  {
    assert Free(b, {'/'});
    assert RStrip(b, '/') == b;
    FieldsOfFree(b, {'/'});
    assert RStrip(b + "/", '/') == b by {
      assert (b + "/")[..|b + "/"| - 1] == b;
    }
    var full := dir + "/" + b;
    assert RStrip(full, '/') == full;
    assert RStrip(full + "/", '/') == full by {
      assert (full + "/")[..|full + "/"| - 1] == full;
    }
    LastField(dir, b);
  }

  /** The last piece of dir + "/" + b is b, when b has no slash. */
  lemma {:induction false} LastField(dir: string, b: string)
    requires Free(b, {'/'})
    ensures var f := Fields(dir + "/" + b, {'/'}); f[|f| - 1] == b
    decreases |dir|
  {
    var s := dir + "/" + b;
    if dir == [] {
      assert s == [('/')] + b && s[1..] == b;
      FieldsOfFree(b, {'/'});
    } else {
      assert s[0] == dir[0] && s[1..] == dir[1..] + "/" + b;
      LastField(dir[1..], b);
      var rest := Fields(s[1..], {'/'});
      if |rest| == 1 {
        // the only piece of s[1..] would have to contain the slash
        assert s[1..][|dir| - 1] == '/';
        FieldsJoinBack(s[1..]);
        assert false;
      }
    }
  }

  /** A string with a slash splits into at least two pieces. */
  lemma FieldsJoinBack(s: string)
    requires '/' in s
    ensures |Fields(s, {'/'})| >= 2
  {
    SinglePieceFree(s);
  }

  lemma SinglePieceFree(s: string)
    ensures |Fields(s, {'/'})| == 1 ==> Free(s, {'/'})
  {
    JoinOfFields(s, '/');
    var f := Fields(s, {'/'});
    if |f| == 1 {
      assert Join(f, '/') == f[0];
    }
  }

  /** walk_dir's path for child name of directory rdir: rdir.rstrip("/") + "/" + name. */
  function ChildPath(rdir: string, name: string): string {
    RStrip(rdir, '/') + "/" + name
  }

  /** The string of a path of names below the server's top: "/" for the top, "/a/b" for [a, b]. */
  function PathString(p: seq<string>): (r: string)
    ensures |r| > 0 && r[0] == '/'
  {
    if p == [] then "/" else "/" + Join(p, '/')
  }

  /** A name a listing can return: not empty, no slash. */
  predicate ValidName(n: string) {
    n != [] && Free(n, {'/'})
  }

  /** walk_dir builds exactly the path string of the child, whenever the path it extends is "/"
      or does not end in an empty name. */
  lemma ChildPathString(p: seq<string>, n: string)
    requires p == [] || ValidName(p[|p| - 1])
    ensures ChildPath(PathString(p), n) == PathString(p + [n])
  {
    if p == [] {
      assert RStrip("/", '/') == "";
      assert Join([n], '/') == n;
    } else {
      JoinLastChar(p);
      JoinSnoc(p, n);
    }
  }

  /** The printed path of a non-empty path ending in a valid name does not end in a slash. */
  lemma JoinLastChar(p: seq<string>)
    requires |p| >= 1 && ValidName(p[|p| - 1])
    ensures RStrip("/" + Join(p, '/'), '/') == "/" + Join(p, '/')
  {
    var j := Join(p, '/');
    var last := p[|p| - 1];
    JoinEndsWithLast(p);
    assert last[|last| - 1] != '/';
    assert j[|j| - 1] == last[|last| - 1];
    var s := "/" + j;
    assert s[|s| - 1] == j[|j| - 1];
  }

  lemma {:induction false} JoinEndsWithLast(p: seq<string>)
    requires |p| >= 1
    ensures |Join(p, '/')| >= |p[|p| - 1]|
    ensures Join(p, '/')[|Join(p, '/')| - |p[|p| - 1]|..] == p[|p| - 1]
    decreases |p|
  {
    if |p| > 1 {
      JoinEndsWithLast(p[1..]);
    }
  }

  lemma {:induction false} JoinSnoc(p: seq<string>, n: string)
    requires |p| >= 1
    ensures Join(p + [n], '/') == Join(p, '/') + "/" + n
    decreases |p|
  {
    if |p| == 1 {
      assert (p + [n])[1..] == [n];
    } else {
      assert (p + [n])[1..] == p[1..] + [n];
      JoinSnoc(p[1..], n);
    }
  }

  /** The path of names a normalised root string names: "/" is the top, "/a/b" is [a, b]. */
  function ParsePath(r: string): seq<string>
    requires |r| > 0
  {
    if r == "/" then [] else Fields(r[1..], {'/'})
  }

  /** Printing the path a root names gives the root back, and its last name is a valid name,
      so walk_dir's child paths are the path strings of the children. */
  lemma ParsePathString(r: string)
    requires IsRoot(r)
    ensures PathString(ParsePath(r)) == r
    ensures ParsePath(r) == [] || ValidName(ParsePath(r)[|ParsePath(r)| - 1])
  {
    if r != "/" {
      var s := r[1..];
      assert r == "/" + s;
      JoinOfFields(s, '/');
      assert s != [] && s[|s| - 1] != '/';
      LastPieceNonEmpty(s);
    }
  }

  /** The last piece is empty only when the string is empty or ends in the separator. */
  lemma {:induction false} LastPieceNonEmpty(s: string)
    requires s != [] && s[|s| - 1] != '/'
    ensures var f := Fields(s, {'/'}); f[|f| - 1] != []
    decreases |s|
  {
    if |s| > 1 {
      LastPieceNonEmpty(s[1..]);
      var rest := Fields(s[1..], {'/'});
      if s[0] != '/' && |rest| == 1 {
        assert Fields(s, {'/'}) == [[s[0]] + rest[0]];
      }
    }
  }

  /** Names with no slash and not empty print to a string that parses back to them: different
      paths have different strings, so walk_dir's test rdir != remote_folder is exactly "this is
      not the job's root". */
  lemma ParseOfPathString(p: seq<string>)
    requires forall i | 0 <= i < |p| :: ValidName(p[i])
    ensures ParsePath(PathString(p)) == p
  {
    if p != [] {
      var j := Join(p, '/');
      assert PathString(p)[1..] == j;
      JoinLength(p);
      assert |j| > 0;
      FieldsOfJoin(p, '/', {'/'});
    }
  }

  lemma {:induction false} JoinLength(p: seq<string>)
    requires |p| >= 1
    ensures |Join(p, '/')| >= |p[0]|
    decreases |p|
  {
  }

  lemma PathStringInjective(p: seq<string>, q: seq<string>)
    requires forall i | 0 <= i < |p| :: ValidName(p[i])
    requires forall i | 0 <= i < |q| :: ValidName(q[i])
    ensures PathString(p) == PathString(q) <==> p == q
  {
    ParseOfPathString(p);
    ParseOfPathString(q);
  }

  // ---------------------------------------------------------------------------------------
  // Weekdays and numbers

  const WeekdayNames: seq<string> := ["Mon", "Tue", "Wed", "Thu", "Fri", "Sat", "Sun"]

  /** weekday_name: Python's i % 7 is never negative for a positive modulus, like Dafny's. */
  function WeekdayName(i: int): (r: string)
    ensures r in WeekdayNames
  {
    WeekdayNames[i % 7]
  }

  /** Names repeat every seven days, and the seven weekdays have seven different names. */
  lemma WeekdayNamePeriodic(i: int)
    ensures WeekdayName(i + 7) == WeekdayName(i)
    ensures 0 <= i < 7 ==> forall j | 0 <= j < 7 && j != i :: WeekdayName(j) != WeekdayName(i)
  {
    assert (i + 7) % 7 == i % 7;
  }

  predicate IsDigit(c: char) {
    '0' <= c <= '9'
  }

  predicate AllDigits(s: string) {
    forall i | 0 <= i < |s| :: IsDigit(s[i])
  }

  /** The value of a string of decimal digits. */
  function DigitsValue(s: string): nat
    requires AllDigits(s)
  {
    if s == [] then 0 else 10 * DigitsValue(s[..|s| - 1]) + (s[|s| - 1] as int - '0' as int)
  }

  /** int(s) on an already stripped string: an optional sign and one or more ASCII digits. */
  function ParseInt(s: string): (r: Tree.Option<int>)
  {
    if |s| > 0 && (s[0] == '+' || s[0] == '-') then
      var d := s[1..];
      if d != [] && AllDigits(d) then
        Tree.Some(if s[0] == '-' then -(DigitsValue(d) as int) else DigitsValue(d) as int)
      else Tree.None
    else if s != [] && AllDigits(s) then Tree.Some(DigitsValue(s) as int)
    else Tree.None
  }

  /** str(n) for a natural number. */
  function ShowNat(n: nat): (s: string)
    ensures s != [] && AllDigits(s)
    decreases n
  {
    var d := ['0' + (n % 10) as char];
    if n < 10 then d else ShowNat(n / 10) + d
  }

  /** str(n). */
  function ShowInt(n: int): string {
    if n < 0 then "-" + ShowNat(-n) else ShowNat(n)
  }

  lemma {:induction false} DigitsOfShowNat(n: nat)
    ensures DigitsValue(ShowNat(n)) == n
    decreases n
  {
    var s := ShowNat(n);
    if n >= 10 {
      DigitsOfShowNat(n / 10);
      assert s[..|s| - 1] == ShowNat(n / 10);
    }
  }

  /** The job form shows hour and minute with str() and reads them back with int(). */
  lemma ParseShowInt(n: int)
    ensures ParseInt(ShowInt(n)) == Tree.Some(n)
  {
    if n < 0 {
      DigitsOfShowNat(-n);
      ParseNegative(ShowNat(-n));
    } else {
      DigitsOfShowNat(n);
      ParseDigits(ShowNat(n));
    }
  }

  lemma ParseNegative(d: string)
    requires d != [] && AllDigits(d)
    ensures ParseInt("-" + d) == Tree.Some(-(DigitsValue(d) as int))
  {
    assert ("-" + d)[1..] == d;
  }

  lemma ParseDigits(d: string)
    requires d != [] && AllDigits(d)
    ensures ParseInt(d) == Tree.Some(DigitsValue(d) as int)
  {
    assert IsDigit(d[0]);
  }

  /** A string without whitespace is its own strip(). */
  lemma TrimNoSpace(s: string)
    requires forall i | 0 <= i < |s| :: !Glob.IsSpace(s[i])
    ensures Glob.Trim(s) == s
  {
    assert Glob.StripLeft(s) == s;
    assert Glob.StripRight(s) == s;
  }

  /** A number the form shows with str() reads back through int((text or default).strip()). */
  /** The decimal text of n reads back as n once stripped. */
  lemma ParseShownInt(n: int)
    ensures ParseInt(Glob.Trim(ShowInt(n))) == Tree.Some(n)
  {
    var s := ShowInt(n);
    assert s != [];
    var d := ShowNat(if n < 0 then -n else n);
    assert forall i | 0 <= i < |d| :: !Glob.IsSpace(d[i]) by {
      forall i | 0 <= i < |d| ensures !Glob.IsSpace(d[i]) { assert IsDigit(d[i]); }
    }
    if n < 0 {
      assert forall i | 0 <= i < |s| :: !Glob.IsSpace(s[i]) by {
        forall i | 0 <= i < |s| ensures !Glob.IsSpace(s[i]) {
          if i > 0 { assert s[i] == d[i - 1]; }
        }
      }
    }
    TrimNoSpace(s);
    ParseShowInt(n);
  }

  /** A form box that holds the decimal text of n reads as n. */
  lemma IntFieldOfShow(n: int, dflt: int)
    ensures IntField(ShowInt(n), dflt) == Tree.Some(n)
  {
    ParseShownInt(n);
  }

  /** int((raw or fallback).strip()) for a box whose fallback text is the decimal text of dflt
      (IntFieldIsParse): an empty box reads as dflt; a box of blanks does not fall back, and
      fails to parse. */
  function IntField(raw: string, dflt: int): Tree.Option<int> {
    if raw == "" then Tree.Some(dflt) else ParseInt(Glob.Trim(raw))
  }

  /** IntField is int((raw or str(dflt)).strip()). */
  lemma IntFieldIsParse(raw: string, dflt: int)
    ensures IntField(raw, dflt) == ParseInt(Glob.Trim(if raw == "" then ShowInt(dflt) else raw))
  {
    ParseShownInt(dflt);
  }
}
