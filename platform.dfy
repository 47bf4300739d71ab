/**
 * The pieces of the .NET base library that the resource service leans on:
 * the exceptions it raises, `Path.Combine` / `Path.IsPathRooted`, and the
 * `OrdinalIgnoreCase` substring search used to find the translation tag.
 */
module Platform {

  /** The exceptions the service raises or lets through. */
  datatype Error =
    | ArgumentError(paramName: string)      // ArgumentException from the constructor checks
    | DirectoryNotFound(directory: string)  // DirectoryNotFoundException
    | FileNotFound(fileName: string)        // a resource file that does not exist
    | FormatError(fileName: string)         // a resource file that does not parse
    | ArgumentOutOfRange                    // string.Substring past the end

  /** The directory separator of the platform the tool targets (Windows). */
  const DirectorySeparator: char := '\\'

  predicate IsSeparator(c: char) {
    c == '\\' || c == '/'
  }

  /** `Path.IsPathRooted`: a leading separator or a drive letter. */
  predicate IsRooted(p: string)
  {
    (|p| >= 1 && IsSeparator(p[0])) || (|p| >= 2 && p[1] == ':')
  }

  /**
   * `Path.Combine(path1, path2)`: an empty or rooted second part wins or is
   * dropped as the library does, and a separator is inserted only when the
   * first part does not already end in one (or in a volume colon).
   */
  function Combine(path1: string, path2: string): (r: string)
    ensures path1 != [] && path2 != [] && !IsRooted(path2) ==>
      |r| > |path1| && r[..|path1|] == path1
    ensures path2 == [] ==> r == path1
    ensures path2 != [] && (path1 == [] || IsRooted(path2)) ==> r == path2
    ensures path1 != [] && path2 != [] && !IsRooted(path2) ==>
      (r == path1 + path2 <==> IsSeparator(path1[|path1| - 1]) || path1[|path1| - 1] == ':')
    ensures path1 != [] && path2 != [] && !IsRooted(path2) ==>
      (!IsSeparator(path1[|path1| - 1]) && path1[|path1| - 1] != ':' ==>
       r == path1 + [DirectorySeparator] + path2)
  {
    if path2 == [] then path1
    else if path1 == [] then path2
    else if IsRooted(path2) then path2
    else if IsSeparator(path1[|path1| - 1]) || path1[|path1| - 1] == ':' then path1 + path2
    else path1 + [DirectorySeparator] + path2
  }

  /** Two different relative names never resolve to the same path under one root. */
  lemma CombineInjective(root: string, a: string, b: string)
    requires root != [] && !IsRooted(a) && !IsRooted(b)
    requires Combine(root, a) == Combine(root, b)
    ensures a == b
  {
    var ra := Combine(root, a);
    if a == [] || b == [] {
      assert |Combine(root, a)| > |root| <==> a != [];
      assert |Combine(root, b)| > |root| <==> b != [];
    } else if IsSeparator(root[|root| - 1]) || root[|root| - 1] == ':' {
      assert ra == root + a && ra == root + b;
      assert a == ra[|root|..] == b;
    } else {
      assert ra == root + [DirectorySeparator] + a && ra == root + [DirectorySeparator] + b;
      assert a == ra[|root| + 1..] == b;
    }
  }

  /** Ordinal case folding of one character (simple upper-casing of ASCII letters). */
  function FoldCase(c: char): (u: char)
    ensures 'a' <= c <= 'z' ==> u == c - 'a' + 'A'
    ensures !('a' <= c <= 'z') ==> u == c
  {
    if 'a' <= c <= 'z' then (c as int - 32) as char else c
  }

  /** `t` occurs in `s` at position `j`, ignoring case. */
  predicate MatchAt(s: string, t: string, j: int) {
    0 <= j && j + |t| <= |s| &&
    forall m :: 0 <= m < |t| ==> FoldCase(s[j + m]) == FoldCase(t[m])
  }

  ghost predicate ContainsIgnoringCase(s: string, t: string) {
    exists j :: MatchAt(s, t, j)
  }

  /** The first position at or after `from` where `t` occurs in `s`, or -1. */
  function IndexOfFrom(s: string, t: string, from: nat): (r: int)
    decreases |s| - from
    ensures r == -1 || (from <= r && MatchAt(s, t, r))
    ensures r == -1 ==> forall j :: from <= j ==> !MatchAt(s, t, j)
    ensures r >= 0 ==> forall j :: from <= j < r ==> !MatchAt(s, t, j)
  {
    if from + |t| > |s| then -1
    else if MatchAt(s, t, from) then from
    else IndexOfFrom(s, t, from + 1)
  }

  /** `s.IndexOf(t, StringComparison.OrdinalIgnoreCase)`: the first match, or -1 when there is none. */
  function IndexOfIgnoreCase(s: string, t: string): (r: int)
    ensures r >= 0 <==> ContainsIgnoringCase(s, t)
    ensures r >= 0 ==> MatchAt(s, t, r) && forall j :: 0 <= j < r ==> !MatchAt(s, t, j)
    ensures r < 0 ==> r == -1
  {
    IndexOfFrom(s, t, 0)
  }
}
