/**
  The three path operations of Python's `os.path` that the pipelines use:
  `basename`, `splitext` and `join`, for POSIX paths (`/` only) and for
  Windows paths (`\` and `/`, drive letters not modelled).
*/
module Paths {
  import opened Text

  datatype PathStyle = Posix | Windows

  predicate IsSep(style: PathStyle, c: char) {
    c == '/' || (style == Windows && c == '\\')
  }

  /** The separator `join` inserts. */
  function PreferredSep(style: PathStyle): (c: char)
    ensures IsSep(style, c)
  {
    if style == Posix then '/' else '\\'
  }

  predicate NoSep(style: PathStyle, s: string) {
    forall i | 0 <= i < |s| :: !IsSep(style, s[i])
  }

  /** Python's `s.rfind(...)` for a class of characters: the last index holding one, or -1. */
  function LastIndex(s: string, f: char -> bool): (r: int)
    ensures -1 <= r < |s|
    ensures r >= 0 ==> f(s[r])
    ensures forall j | r < j < |s| :: !f(s[j])
    decreases |s|
  {
    if |s| == 0 then -1
    else if f(s[|s| - 1]) then |s| - 1
    else LastIndex(s[..|s| - 1], f)
  }

  function LastSepIndex(style: PathStyle, p: string): int {
    LastIndex(p, c => IsSep(style, c))
  }

  predicate IsDot(c: char) {
    c == '.'
  }

  function LastDotIndex(p: string): (r: int)
    ensures -1 <= r < |p|
    ensures r >= 0 ==> p[r] == '.'
    ensures forall j | r < j < |p| :: p[j] != '.'
  {
    LastIndex(p, IsDot)
  }

  /** `os.path.basename(p)`: what follows the last separator. */
  function Basename(style: PathStyle, p: string): (r: string)
    ensures NoSep(style, r) && IsSuffix(r, p)
    ensures |r| < |p| ==> IsSep(style, p[|p| - |r| - 1])
  {
    p[LastSepIndex(style, p) + 1..]
  }

  /** Some character strictly between positions `lo` and `hi` of `p` is not a dot. */
  predicate NonDotBetween(p: string, lo: int, hi: int) {
    exists j | lo < j < hi && 0 <= j < |p| :: p[j] != '.'
  }

  /**
    `os.path.splitext(p)`: the extension is the part from the last dot on,
    provided that dot comes after the last separator and is preceded, within
    the last path component, by some character other than a dot; otherwise
    the extension is empty.
  */
  function SplitExt(style: PathStyle, p: string): (r: (string, string))
    ensures r.0 + r.1 == p
    ensures r.1 != [] ==> r.1[0] == '.'
    ensures forall i | 1 <= i < |r.1| :: r.1[i] != '.' && !IsSep(style, r.1[i])
  {
    var sepIndex := LastSepIndex(style, p);
    var dotIndex := LastDotIndex(p);
    if sepIndex < dotIndex && NonDotBetween(p, sepIndex, dotIndex) then
      (p[..dotIndex], p[dotIndex..])
    else
      (p, "")
  }

  /**
    `os.path.join(dir, name)` for two components: the name always ends the
    result, and a relative name is put after the directory, with at most
    one separator between them.
  */
  function JoinPath(style: PathStyle, dir: string, name: string): string {
    if |name| > 0 && IsSep(style, name[0]) then name
    else if |dir| == 0 || IsSep(style, dir[|dir| - 1]) then dir + name
    else dir + [PreferredSep(style)] + name
  }

  /** The name always ends a join; a relative name follows the directory, with at most one separator between. */
  lemma JoinPathParts(style: PathStyle, dir: string, name: string)
    ensures IsSuffix(name, JoinPath(style, dir, name))
    ensures |name| > 0 && !IsSep(style, name[0]) ==>
              IsPrefix(dir, JoinPath(style, dir, name)) && |JoinPath(style, dir, name)| <= |dir| + 1 + |name|
  {
    var r := JoinPath(style, dir, name);
    if |name| > 0 && IsSep(style, name[0]) {
      assert r == name;
    } else {
      var glue := if |dir| == 0 || IsSep(style, dir[|dir| - 1]) then "" else [PreferredSep(style)];
      assert r == dir + glue + name;
      assert r[|r| - |name|..] == name;
      assert r[..|dir|] == dir;
    }
  }

  /** Joining a separator-free name onto a directory: the basename gives the name back. */
  lemma BasenameOfJoin(style: PathStyle, dir: string, name: string)
    requires |name| > 0 && NoSep(style, name)
    ensures Basename(style, JoinPath(style, dir, name)) == name
  {
    var p := JoinPath(style, dir, name);
    var r := LastSepIndex(style, p);
    var prefix := if |dir| == 0 then "" else if IsSep(style, dir[|dir| - 1]) then dir else dir + [PreferredSep(style)];
    assert p == prefix + name;
    forall j | |prefix| <= j < |p| ensures !IsSep(style, p[j]) {
      assert p[j] == name[j - |prefix|];
    }
    if |prefix| > 0 {
      assert IsSep(style, p[|prefix| - 1]);
    }
    assert r == |prefix| - 1;
    assert p[r + 1..] == name;
  }

  /**
    A separator-free stem holding some non-dot character, followed by an
    extension (a dot, then neither dots nor separators), splits back into
    that stem and that extension.
  */
  lemma SplitExtOf(style: PathStyle, stem: string, ext: string, k: nat)
    requires NoSep(style, stem) && k < |stem| && stem[k] != '.'
    requires |ext| > 0 && ext[0] == '.'
    requires forall i | 1 <= i < |ext| :: ext[i] != '.' && !IsSep(style, ext[i])
    ensures SplitExt(style, stem + ext) == (stem, ext)
  {
    var p := stem + ext;
    var dotIndex := LastDotIndex(p);
    assert p[|stem|] == '.';
    assert dotIndex == |stem|;
    assert LastSepIndex(style, p) == -1;
    assert p[k] != '.';
  }

  /** The last component holds a dot preceded somewhere by a character other than a dot. */
  predicate HasInnerDot(b: string) {
    exists i, j | 0 <= j < i < |b| :: b[i] == '.' && b[j] != '.'
  }

  /**
    `splitext` splits off an extension exactly when the last path component
    holds a dot preceded somewhere by a character other than a dot; a
    component without a dot, or whose dots all lead it, keeps its name
    whole.
  */
  lemma SplitExtSplitsExactly(style: PathStyle, p: string)
    ensures SplitExt(style, p).1 != [] <==> HasInnerDot(Basename(style, p))
  {
    if SplitExt(style, p).1 != [] {
      SplitImpliesInnerDot(style, p);
    }
    if HasInnerDot(Basename(style, p)) {
      InnerDotImpliesSplit(style, p);
    }
  }

  lemma SplitImpliesInnerDot(style: PathStyle, p: string)
    requires SplitExt(style, p).1 != []
    ensures HasInnerDot(Basename(style, p))
  {
    var s := LastSepIndex(style, p);
    var d := LastDotIndex(p);
    assert s < d && NonDotBetween(p, s, d);
    var j :| s < j < d && 0 <= j < |p| && p[j] != '.';
    InnerDotOfSlice(p, s + 1, d, j);
  }

  lemma InnerDotImpliesSplit(style: PathStyle, p: string)
    requires HasInnerDot(Basename(style, p))
    ensures SplitExt(style, p).1 != []
  {
    var s := LastSepIndex(style, p);
    var d := LastDotIndex(p);
    var dot, other := InnerDotInPath(p, s + 1);
    assert dot <= d;
    assert NonDotBetween(p, s, d) by {
      assert s < other < d && 0 <= other < |p| && p[other] != '.';
    }
  }

  /** An inner dot of `p[start..]`, located in `p` itself. */
  lemma InnerDotInPath(p: string, start: nat) returns (dot: nat, other: nat)
    requires start <= |p| && HasInnerDot(p[start..])
    ensures start <= other < dot < |p| && p[dot] == '.' && p[other] != '.'
  {
    var b := p[start..];
    var i, j :| 0 <= j < i < |b| && b[i] == '.' && b[j] != '.';
    dot, other := start + i, start + j;
  }

  /** A dot at `d` after a non-dot at `j`, both from `start` on, is an inner dot of `p[start..]`. */
  lemma InnerDotOfSlice(p: string, start: nat, d: nat, j: nat)
    requires start <= j < d < |p| && p[d] == '.' && p[j] != '.'
    ensures HasInnerDot(p[start..])
  {
    var b := p[start..];
    assert b[d - start] == '.' && b[j - start] != '.';
  }
}
