/** Exclusion matching: whitespace trimming as Python's str.strip() does it, shell-glob
    matching as fnmatch.fnmatch does it (case-sensitive, whole name), and matches_any. */
module Glob {

  /** The characters Python's str.isspace() accepts, the set str.strip() removes. */
  predicate IsSpace(c: char) {
    c == ' ' || ('\t' <= c <= '\r') || ('\U{1c}' <= c <= '\U{1f}') || c == '\U{85}' || c == '\U{a0}'
    || c == '\U{1680}' || ('\U{2000}' <= c <= '\U{200a}') || c == '\U{2028}' || c == '\U{2029}'
    || c == '\U{202f}' || c == '\U{205f}' || c == '\U{3000}'
  }

  predicate AllSpace(s: string) {
    forall i | 0 <= i < |s| :: IsSpace(s[i])
  }

  /** s with its leading whitespace removed (str.lstrip()). */
  function StripLeft(s: string): (r: string)
    ensures |r| <= |s| && r == s[|s| - |r|..]
    ensures AllSpace(s[..|s| - |r|])
    ensures r == [] || !IsSpace(r[0])
  {
    if s == [] || !IsSpace(s[0]) then s
    else
      var r := StripLeft(s[1..]);
      assert s[1..][..|s| - 1 - |r|] == s[1..|s| - |r|];
      r
  }

  /** s with its trailing whitespace removed (str.rstrip()). */
  function StripRight(s: string): (r: string)
    ensures |r| <= |s| && r == s[..|r|]
    ensures AllSpace(s[|r|..])
    ensures r == [] || !IsSpace(r[|r| - 1])
  {
    if s == [] || !IsSpace(s[|s| - 1]) then s
    else StripRight(s[..|s| - 1])
  }

  /** str.strip(): both ends. */
  function Trim(s: string): (r: string)
    ensures |r| <= |s|
    ensures r == [] || (!IsSpace(r[0]) && !IsSpace(r[|r| - 1]))
  {
    StripRight(StripLeft(s))
  }

  /** A string trims to nothing exactly when every character of it is whitespace. */
  lemma TrimBlank(s: string)
    ensures Trim(s) == [] <==> AllSpace(s)
  {
    var l := StripLeft(s);
    var k := |s| - |l|;
    assert l == s[k..];
    if Trim(s) == [] {
      assert AllSpace(l) by { assert l[|StripRight(l)|..] == l; }
      assert |l| == 0;
      assert s == s[..k];
    }
    if l != [] { assert !IsSpace(s[k]) by { assert l[0] == s[k]; } }
  }

  /** Trimming twice is trimming once. */
  lemma TrimIdempotent(s: string)
    ensures Trim(Trim(s)) == Trim(s)
  {
    var t := Trim(s);
    if t != [] {
      assert StripLeft(t) == t;
      assert StripRight(t) == t;
    }
  }

  /** One member of a bracket expression: a character or a range lo-hi. */
  datatype ClassItem = Single(c: char) | Range(lo: char, hi: char)

  /** A compiled pattern element. */
  datatype Token =
    | Star                                           // '*': any run of characters
    | AnyChar                                        // '?': exactly one character
    | Lit(c: char)                                   // any other character stands for itself
    | Class(negated: bool, items: seq<ClassItem>)    // '[...]' or '[!...]'

  predicate InItem(c: char, it: ClassItem) {
    match it
    case Single(x) => c == x
    case Range(lo, hi) => lo <= c <= hi
  }

  predicate InClass(c: char, items: seq<ClassItem>) {
    exists i | 0 <= i < |items| :: InItem(c, items[i])
  }

  /** Index of the ']' closing a bracket expression that opens at p[0], as fnmatch.translate
      finds it: an optional '!' and then one leading ']' belong to the body. */
  function ClassClose(p: string): (j: nat)
    requires |p| > 0 && p[0] == '['
    ensures 1 <= j <= |p|
    ensures j < |p| ==> p[j] == ']'
  {
    var a := if 1 < |p| && p[1] == '!' then 2 else 1;
    var b := if a < |p| && p[a] == ']' then a + 1 else a;
    FindClose(p, b)
  }

  /** First index at or after i holding ']', or |p| when there is none. */
  function FindClose(p: string, i: nat): (j: nat)
    requires i <= |p|
    ensures i <= j <= |p|
    ensures j < |p| ==> p[j] == ']'
    ensures forall k | i <= k < j :: p[k] != ']'
    decreases |p| - i
  {
    if i == |p| || p[i] == ']' then i else FindClose(p, i + 1)
  }

  /** The members of a bracket body: 'a-c' is a range unless the '-' is the body's last
      character; every other character stands for itself. */
  function ClassItems(body: string): (items: seq<ClassItem>)
    decreases |body|
  {
    if body == [] then []
    else if |body| >= 3 && body[1] == '-' then [Range(body[0], body[2])] + ClassItems(body[3..])
    else [Single(body[0])] + ClassItems(body[1..])
  }

  function ClassToken(body: string): Token {
    if |body| > 0 && body[0] == '!' then Class(true, ClassItems(body[1..]))
    else Class(false, ClassItems(body))
  }

  /** A pattern string as a token sequence; a '[' without a closing ']' is an ordinary character. */
  function Compile(p: string): (ts: seq<Token>)
    decreases |p|
  {
    if p == [] then []
    else if p[0] == '*' then [Star] + Compile(p[1..])
    else if p[0] == '?' then [AnyChar] + Compile(p[1..])
    else if p[0] == '[' then
      var j := ClassClose(p);
      if j == |p| then [Lit('[')] + Compile(p[1..])
      else [ClassToken(p[1..j])] + Compile(p[j + 1..])
    else [Lit(p[0])] + Compile(p[1..])
  }

  /** Whole-name matching of a compiled pattern. */
  predicate Match(name: string, ts: seq<Token>)
    decreases |ts|, |name|
  {
    if ts == [] then name == []
    else match ts[0]
      case Star => Match(name, ts[1..]) || (name != [] && Match(name[1..], ts))
      case AnyChar => name != [] && Match(name[1..], ts[1..])
      case Lit(c) => name != [] && name[0] == c && Match(name[1..], ts[1..])
      case Class(neg, items) => name != [] && InClass(name[0], items) != neg && Match(name[1..], ts[1..])
  }

  /** fnmatch.fnmatch(name, pat) with case-sensitive comparison. */
  predicate Glob(name: string, pat: string) {
    Match(name, Compile(pat))
  }

  /** A pattern free of the glob operators. */
  predicate Plain(s: string) {
    forall i | 0 <= i < |s| :: s[i] != '*' && s[i] != '?' && s[i] != '['
  }

  /** A plain pattern matches exactly the name spelled by it. */
  lemma {:induction false} PlainMatchesItself(name: string, pat: string)
    requires Plain(pat)
    ensures Glob(name, pat) <==> name == pat
  {
    if pat != [] {
      assert Plain(pat[1..]) by { assert forall i | 0 <= i < |pat| - 1 :: pat[1..][i] == pat[i + 1]; }
      assert Compile(pat) == [Lit(pat[0])] + Compile(pat[1..]);
      if name != [] {
        PlainMatchesItself(name[1..], pat[1..]);
        if name[0] == pat[0] && name[1..] == pat[1..] {
          assert name == [name[0]] + name[1..];
          assert pat == [pat[0]] + pat[1..];
        }
      }
    }
  }

  /** '*' followed by a plain suffix (as in '*.json') matches exactly the names ending in it. */
  lemma {:induction false} StarSuffix(name: string, suffix: string)
    requires Plain(suffix)
    ensures Glob(name, ['*'] + suffix) <==> |suffix| <= |name| && name[|name| - |suffix|..] == suffix
  {
    assert (['*'] + suffix)[1..] == suffix;
    var ts := Compile(['*'] + suffix);
    assert ts == [Star] + Compile(suffix);
    StarSuffixTokens(name, suffix);
  }

  lemma {:induction false} StarSuffixTokens(name: string, suffix: string)
    requires Plain(suffix)
    ensures Match(name, [Star] + Compile(suffix)) <==> |suffix| <= |name| && name[|name| - |suffix|..] == suffix
    decreases |name|
  {
    var ts := [Star] + Compile(suffix);
    assert ts[1..] == Compile(suffix);
    PlainMatchesItself(name, suffix);
    if name != [] {
      StarSuffixTokens(name[1..], suffix);
      if |suffix| <= |name| - 1 {
        assert name[1..][|name| - 1 - |suffix|..] == name[|name| - |suffix|..];
      }
      if |suffix| == |name| && name[|name| - |suffix|..] == suffix {
        assert name == suffix;
      }
    }
  }

  /** '*' matches every name. */
  lemma StarMatchesAll(name: string)
    ensures Glob(name, "*")
  {
    assert Plain([]);
    StarSuffix(name, []);
    assert ['*'] + [] == "*";
  }

  /** '?' matches exactly the one-character names. */
  lemma QuestionMatchesOneChar(name: string)
    ensures Glob(name, "?") <==> |name| == 1
  {
    assert Compile("?") == [AnyChar];
    if name != [] {
      assert Match(name[1..], []) <==> |name| == 1;
    }
  }

  /** One exclusion entry applied to a name: blank entries never match. */
  predicate Hits(name: string, pat: string) {
    var p := Trim(pat);
    p != [] && Glob(name, p)
  }

  /** matches_any, as a definition: the patterns in order, each trimmed; a blank one is skipped,
      the first that matches the whole name answers yes. */
  predicate MatchesAny(name: string, pats: seq<string>)
    decreases |pats|
  {
    pats != [] && (Hits(name, pats[0]) || MatchesAny(name, pats[1..]))
  }

  /** matches_any as the loop over the patterns that returns at the first hit. */
  method Matches(name: string, pats: seq<string>) returns (m: bool)
    ensures m <==> MatchesAny(name, pats)
  {
    var i := 0;
    while i < |pats|
      invariant 0 <= i <= |pats|
      invariant MatchesAny(name, pats) <==> MatchesAny(name, pats[i..])
    {
      var pat := Trim(pats[i]);
      if pat != [] && Glob(name, pat) {
        return true;
      }
      assert pats[i..][1..] == pats[i + 1..];
      i := i + 1;
    }
    return false;
  }

  /** Some pattern, once trimmed, is non-blank and matches the whole name. */
  lemma {:induction false} MatchesAnyIff(name: string, pats: seq<string>)
    ensures MatchesAny(name, pats) <==> exists i | 0 <= i < |pats| :: Hits(name, pats[i])
    decreases |pats|
  {
    if pats != [] {
      MatchesAnyIff(name, pats[1..]);
      if i :| 0 <= i < |pats| && Hits(name, pats[i]) {
        if i > 0 {
          assert pats[1..][i - 1] == pats[i];
        }
      }
      if j :| 0 <= j < |pats| - 1 && Hits(name, pats[1..][j]) {
        assert pats[j + 1] == pats[1..][j];
      }
    }
  }

  /** Blank patterns never match: adding one changes nothing, and no pattern matches nothing. */
  lemma {:induction false} BlankPatternsIgnored(name: string, pats: seq<string>, blank: string)
    requires AllSpace(blank)
    ensures MatchesAny(name, pats + [blank]) == MatchesAny(name, pats)
    ensures !MatchesAny(name, [])
    decreases |pats|
  {
    var ps := pats + [blank];
    if pats == [] {
      TrimBlank(blank);
      assert ps[1..] == [];
    } else {
      assert ps[0] == pats[0];
      assert ps[1..] == pats[1..] + [blank];
      BlankPatternsIgnored(name, pats[1..], blank);
    }
  }

  /** An example: with '*.json' excluded, a.json is excluded and b.log is not. */
  lemma JsonExample()
    ensures MatchesAny("a.json", ["*.json"])
    ensures !MatchesAny("b.log", ["*.json"])
  {
    var pat := "*.json";
    assert Trim(pat) == pat by {
      assert StripLeft(pat) == pat by { assert !IsSpace(pat[0]); }
      assert StripRight(pat) == pat by { assert !IsSpace(pat[|pat| - 1]); }
    }
    assert Plain(".json");
    assert ['*'] + ".json" == pat;
    StarSuffix("a.json", ".json");
    StarSuffix("b.log", ".json");
    assert "a.json"[1..] == ".json";
    assert [pat][1..] == [];
  }
}
