/** The JavaScript string built-ins that the build scripts rely on, stated on
    `seq<char>`: `indexOf`, `substring(0, n)`, `replace` with a
    string pattern (first occurrence only), underscore.string's `endsWith`,
    and the simple part of Node's `path.dirname` / `path.basename`. */
module Text {

  datatype Option<+T> = None | Some(value: T) {
    function GetOr(default: T): T {
      match this
      case Some(v) => v
      case None => default
    }
  }

  /** `pat` occurs in `s` starting at index `i`. */
  predicate OccursAt(s: string, pat: string, i: int) {
    0 <= i && i + |pat| <= |s| && s[i..i + |pat|] == pat
  }

  /** underscore.string `endsWith`: `s` is some string followed by `suffix`. */
  predicate EndsWith(s: string, suffix: string): (r: bool)
    ensures r <==> |suffix| <= |s| && s == s[..|s| - |suffix|] + suffix
  {
    |suffix| <= |s| && s[|s| - |suffix|..] == suffix
  }

  /** JavaScript `s.substring(0, n)`: the first `n` characters, or all of `s`
      when it is shorter. */
  function Prefix(s: string, n: nat): (r: string)
    ensures |r| == if |s| < n then |s| else n
    ensures r == s[..|r|]
  {
    if |s| <= n then s else s[..n]
  }

  /** First index at or after `from` where `pat` occurs, or -1. */
  function IndexFrom(s: string, pat: string, from: nat): (r: int)
    ensures r == -1 || (from <= r && OccursAt(s, pat, r))
    ensures forall j :: from <= j && (r == -1 || j < r) ==> !OccursAt(s, pat, j)
    decreases |s| - from
  {
    if from + |pat| > |s| then -1
    else if s[from..from + |pat|] == pat then from
    else IndexFrom(s, pat, from + 1)
  }

  /** JavaScript `s.indexOf(pat)`. */
  function IndexOf(s: string, pat: string): (r: int)
    ensures r == -1 || OccursAt(s, pat, r)
    ensures forall j :: 0 <= j && (r == -1 || j < r) ==> !OccursAt(s, pat, j)
  {
    IndexFrom(s, pat, 0)
  }

  /** JavaScript `s.replace(pat, rep)` with a string pattern and a
      replacement without `$` patterns: only the FIRST occurrence of `pat` is
      replaced by `rep`; without one, `s` is returned. */
  function ReplaceFirst(s: string, pat: string, rep: string): (r: string)
    ensures IndexOf(s, pat) < 0 ==> r == s
    ensures IndexOf(s, pat) >= 0 ==> |r| == |s| - |pat| + |rep| && r[..IndexOf(s, pat)] == s[..IndexOf(s, pat)]
  {
    var i := IndexOf(s, pat);
    if i < 0 then s else s[..i] + rep + s[i + |pat|..]
  }

  /** What `ReplaceFirst` does, in terms of where the pattern occurs. */
  lemma ReplaceFirstSpec(s: string, pat: string, rep: string)
    ensures (forall j :: 0 <= j ==> !OccursAt(s, pat, j)) ==> ReplaceFirst(s, pat, rep) == s
    ensures forall i :: OccursAt(s, pat, i) && (forall j :: 0 <= j < i ==> !OccursAt(s, pat, j)) ==>
              ReplaceFirst(s, pat, rep) == s[..i] + rep + s[i + |pat|..]
  {
    var k := IndexOf(s, pat);
    forall i | OccursAt(s, pat, i) && (forall j :: 0 <= j < i ==> !OccursAt(s, pat, j))
      ensures k == i
    {
    }
  }

  /** A pattern whose first character does not recur cannot overlap itself. */
  predicate NoSelfOverlap(pat: string) {
    |pat| > 0 && forall k :: 1 <= k < |pat| ==> pat[k] != pat[0]
  }

  /** No occurrence of a non-self-overlapping pattern starts inside another. */
  lemma NoOccurrenceInside(s: string, pat: string, i: int)
    requires NoSelfOverlap(pat) && OccursAt(s, pat, i)
    ensures forall m :: i < m < i + |pat| ==> !OccursAt(s, pat, m)
  {
    forall m | i < m < i + |pat| ensures !OccursAt(s, pat, m) {
      assert s[i..i + |pat|][m - i] == s[m];
      assert s[m] != pat[0];
      if m + |pat| <= |s| {
        assert s[m..m + |pat|][0] == s[m];
      }
    }
  }

  /** Replacing the first occurrence of an extension by a longer form that
      ends with it keeps the string's ending: the renamed file still ends in
      the extension, whichever occurrence was replaced. */
  lemma ReplaceFirstKeepsSuffix(s: string, ext: string, rep: string)
    requires NoSelfOverlap(ext) && EndsWith(rep, ext) && EndsWith(s, ext)
    ensures EndsWith(ReplaceFirst(s, ext, rep), ext)
  {
    var i := IndexOf(s, ext);
    var n := |s| - |ext|;
    assert s[n..n + |ext|] == s[n..];
    assert OccursAt(s, ext, n);
    assert 0 <= i <= n;
    var tail := s[i + |ext|..];
    assert ReplaceFirst(s, ext, rep) == s[..i] + rep + tail;
    if i == n {
      assert tail == [];
      EndsWithAppend(s[..i], rep, ext);
      assert s[..i] + rep + tail == s[..i] + rep;
    } else {
      // the final occurrence cannot start inside the first one
      NoOccurrenceInside(s, ext, i);
      assert i + |ext| <= n;
      assert tail[|tail| - |ext|..] == s[n..];
      EndsWithAppend(s[..i] + rep, tail, ext);
    }
  }

  lemma EndsWithAppend(a: string, b: string, ext: string)
    requires EndsWith(b, ext)
    ensures EndsWith(a + b, ext)
  {
    assert (a + b)[|a + b| - |ext|..] == b[|b| - |ext|..];
  }

  /** When `pat` starts nowhere inside `stem`, the occurrence right after
      `stem` is the one replaced. */
  lemma ReplaceFirstAt(stem: string, pat: string, rest: string, rep: string)
    requires forall j :: 0 <= j < |stem| ==> !OccursAt(stem + pat + rest, pat, j)
    ensures ReplaceFirst(stem + pat + rest, pat, rep) == stem + rep + rest
  {
    var s := stem + pat + rest;
    var n := |stem|;
    assert s[n..n + |pat|] == pat;
    assert OccursAt(s, pat, n);
    var i := IndexOf(s, pat);
    assert i == n;
    assert s[..n] == stem;
    assert s[n + |pat|..] == rest;
  }

  /** When the pattern's first character does not occur in `stem`, the
      occurrence right after `stem` is the one replaced. */
  lemma ReplaceFirstAfterStem(stem: string, pat: string, rest: string, rep: string)
    requires |pat| > 0 && pat[0] !in stem
    ensures ReplaceFirst(stem + pat + rest, pat, rep) == stem + rep + rest
  {
    var s := stem + pat + rest;
    forall j | 0 <= j < |stem| ensures !OccursAt(s, pat, j) {
      assert s[j] == stem[j];
      if j + |pat| <= |s| {
        assert s[j..j + |pat|][0] == s[j];
      }
    }
    ReplaceFirstAt(stem, pat, rest, rep);
  }

  /** Index of the last `/` in `s`, or -1. */
  function LastSlash(s: string): (r: int)
    ensures -1 <= r < |s|
    ensures r >= 0 ==> s[r] == '/'
    ensures forall j :: r < j < |s| ==> s[j] != '/'
  {
    if s == [] then -1
    else if s[|s| - 1] == '/' then |s| - 1
    else LastSlash(s[..|s| - 1])
  }

  /** `path.dirname` for paths without trailing separators. */
  function Dirname(p: string): (r: string)
    ensures '/' !in p ==> r == "."
    ensures '/' in p ==> r == "/" || (|r| < |p| && r == p[..|r|] && p[|r|] == '/')
  {
    var i := LastSlash(p);
    if i < 0 then "." else if i == 0 then "/" else p[..i]
  }

  /** `path.basename` for paths without trailing separators. */
  function Basename(p: string): (r: string)
    ensures '/' !in r
    ensures |r| <= |p| && r == p[|p| - |r|..]
    ensures '/' !in p ==> r == p
    ensures '/' in p ==> |r| < |p| && p[|p| - |r| - 1] == '/'
  {
    p[LastSlash(p) + 1..]
  }

  /** A path with a separator after its first character splits into its
      directory and base name, and the base name holds no separator. */
  lemma SplitPath(p: string)
    requires exists j :: 0 < j < |p| && p[j] == '/'
    ensures Dirname(p) + "/" + Basename(p) == p
    ensures '/' !in Basename(p)
  {
    var j :| 0 < j < |p| && p[j] == '/';
    var i := LastSlash(p);
    assert i >= j;
    assert p[..i] + "/" + p[i + 1..] == p[..i] + p[i..];
    assert p[..i] + p[i..] == p;
    forall c | c in Basename(p) ensures c != '/' {
      var k :| 0 <= k < |Basename(p)| && Basename(p)[k] == c;
      assert Basename(p)[k] == p[i + 1 + k];
    }
  }
}
