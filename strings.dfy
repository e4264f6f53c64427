/**
 * The .NET string operations the core relies on, stated over `seq<char>`:
 * `StartsWith` as an ordinal prefix test, `Split(char)`, ASCII `ToLower`,
 * `IsNullOrWhiteSpace` and ordinal `Replace(string, string)`.
 */
module Strings {

  /**
   * `prefix` is an ordinal prefix of `s`: `Replace` matches its pattern this
   * way. The file-name test in `ReadConfigs` uses it too, although .NET's
   * one-argument `StartsWith` compares by the current culture there.
   */
  predicate StartsWith(s: string, prefix: string) {
    |prefix| <= |s| && s[..|prefix|] == prefix
  }

  // ---------------------------------------------------------------------
  // Split
  // ---------------------------------------------------------------------

  /**
   * `s.Split(sep)`: the segments between separators, empty segments kept,
   * so a string with n separators has n + 1 segments.
   */
  function Split(s: string, sep: char): (parts: seq<string>)
    ensures |parts| >= 1
  {
    if s == [] then [""]
    else
      var rest := Split(s[1..], sep);
      if s[0] == sep then [""] + rest
      else [[s[0]] + rest[0]] + rest[1..]
  }

  /** Glues segments back together with the separator between them. */
  function Join(parts: seq<string>, sep: char): string
    requires |parts| >= 1
  {
    if |parts| == 1 then parts[0] else parts[0] + [sep] + Join(parts[1..], sep)
  }

  /** An empty first segment contributes only its separator. */
  lemma JoinEmptyHead(rest: seq<string>, sep: char)
    requires |rest| >= 1
    ensures Join([""] + rest, sep) == [sep] + Join(rest, sep)
  {
    assert ([""] + rest)[1..] == rest;
  }

  /** Growing the first segment by one character grows the joined string by that character. */
  lemma JoinGrowHead(c: char, rest: seq<string>, sep: char)
    requires |rest| >= 1
    ensures Join([[c] + rest[0]] + rest[1..], sep) == [c] + Join(rest, sep)
  {
    var parts := [[c] + rest[0]] + rest[1..];
    if |rest| > 1 {
      assert parts[1..] == rest[1..];
      var tail := [sep] + Join(rest[1..], sep);
      assert Join(parts, sep) == ([c] + rest[0]) + tail;
      assert Join(rest, sep) == rest[0] + tail;
    }
  }

  /** Splitting loses nothing: joining the segments gives the string back. */
  lemma {:induction false} JoinSplit(s: string, sep: char)
    ensures Join(Split(s, sep), sep) == s
  {
    if s != [] {
      var rest := Split(s[1..], sep);
      JoinSplit(s[1..], sep);
      if s[0] == sep {
        JoinEmptyHead(rest, sep);
      } else {
        JoinGrowHead(s[0], rest, sep);
      }
      assert [s[0]] + s[1..] == s;
    }
  }

  /** No segment contains the separator. */
  lemma {:induction false} SplitSegmentsLackSeparator(s: string, sep: char)
    ensures forall i :: 0 <= i < |Split(s, sep)| ==> sep !in Split(s, sep)[i]
  {
    if s != [] {
      SplitSegmentsLackSeparator(s[1..], sep);
    }
  }

  /** A string has a single segment exactly when it holds no separator. */
  lemma {:induction false} SplitSingle(s: string, sep: char)
    ensures sep !in s <==> |Split(s, sep)| == 1
    ensures sep !in s ==> Split(s, sep) == [s]
  {
    if s != [] {
      SplitSingle(s[1..], sep);
      assert s == [s[0]] + s[1..];
    }
  }

  /** Growing the first segment of a concatenation of splits grows the first split. */
  lemma GrowFirstSegment(c: char, p: seq<string>, q: seq<string>)
    requires |p| >= 1
    ensures [[c] + (p + q)[0]] + (p + q)[1..] == ([[c] + p[0]] + p[1..]) + q
  {
    assert (p + q)[0] == p[0] && (p + q)[1..] == p[1..] + q;
  }

  /** How the first character of a non-empty string enters the split. */
  lemma SplitUnfold(s: string, sep: char)
    requires s != []
    ensures Split(s, sep) ==
      if s[0] == sep then [""] + Split(s[1..], sep) else [[s[0]] + Split(s[1..], sep)[0]] + Split(s[1..], sep)[1..]
  {
  }

  /** Splitting distributes over a separator placed between two strings. */
  lemma {:induction false} SplitAround(a: string, b: string, sep: char)
    ensures Split(a + [sep] + b, sep) == Split(a, sep) + Split(b, sep)
  {
    var s := a + [sep] + b;
    SplitUnfold(s, sep);
    if a == [] {
      assert s[0] == sep && s[1..] == b;
    } else {
      var t := a[1..];
      SplitAround(t, b, sep);
      assert s[0] == a[0] && s[1..] == t + [sep] + b;
      SplitUnfold(a, sep);
      var p, q := Split(t, sep), Split(b, sep);
      if a[0] != sep {
        GrowFirstSegment(a[0], p, q);
      } else {
        assert [""] + (p + q) == ([""] + p) + q;
      }
    }
  }

  // ---------------------------------------------------------------------
  // ToLower and IsNullOrWhiteSpace
  // ---------------------------------------------------------------------

  /** Lower-cases the letters A to Z and leaves every other character alone. */
  function LowerChar(c: char): char {
    if 'A' <= c <= 'Z' then (c as int + 32) as char else c
  }

  /** `s.ToLower()` restricted to ASCII letters. */
  function ToLower(s: string): (r: string)
    ensures |r| == |s|
    ensures forall i :: 0 <= i < |s| ==> r[i] == LowerChar(s[i])
  {
    if s == [] then [] else [LowerChar(s[0])] + ToLower(s[1..])
  }

  /** A character lower-cases to the letter `lower` exactly when it is that letter in either case. */
  lemma LowerCharIs(c: char, lower: char)
    requires 'a' <= lower <= 'z'
    ensures LowerChar(c) == lower <==> c == lower || c as int == lower as int - 32
  {
  }

  /** A string is "json" exactly when it has those four letters. */
  lemma IsJson(r: string)
    ensures r == "json" <==> |r| == 4 && r[0] == 'j' && r[1] == 's' && r[2] == 'o' && r[3] == 'n'
  {
  }

  /** `ToLower(f) == "json"` accepts exactly the spellings of json in any mix of cases. */
  lemma LowerIsJson(f: string)
    ensures ToLower(f) == "json" <==>
      |f| == 4 && (f[0] == 'j' || f[0] == 'J') && (f[1] == 's' || f[1] == 'S')
      && (f[2] == 'o' || f[2] == 'O') && (f[3] == 'n' || f[3] == 'N')
  {
    IsJson(ToLower(f));
    if |f| == 4 {
      LowerCharIs(f[0], 'j');
      LowerCharIs(f[1], 's');
      LowerCharIs(f[2], 'o');
      LowerCharIs(f[3], 'n');
    }
  }

  /** `char.IsWhiteSpace`: Unicode space, line and paragraph separators and the control characters U+0009-U+000D and U+0085. */
  predicate IsWhiteSpace(c: char) {
    c == ' ' || '\t' <= c <= '\r' || c == '\U{0085}' || c == '\U{00A0}' || c == '\U{1680}'
    || '\U{2000}' <= c <= '\U{200A}' || c == '\U{2028}' || c == '\U{2029}'
    || c == '\U{202F}' || c == '\U{205F}' || c == '\U{3000}'
  }

  /** `string.IsNullOrWhiteSpace` for a non-null string: empty or only white space. */
  predicate IsNullOrWhiteSpace(s: string) {
    forall i :: 0 <= i < |s| ==> IsWhiteSpace(s[i])
  }

  // ---------------------------------------------------------------------
  // Replace
  // ---------------------------------------------------------------------

  /** `pattern` occurs somewhere in `s`. */
  predicate Contains(s: string, pattern: string)
    decreases |s|
  {
    StartsWith(s, pattern) || (s != [] && Contains(s[1..], pattern))
  }

  /**
   * `s.Replace(pattern, replacement)`: every non-overlapping occurrence of
   * `pattern`, found scanning left to right, becomes `replacement`. .NET
   * throws on an empty pattern, hence the precondition.
   */
  function ReplaceAll(s: string, pattern: string, replacement: string): (r: string)
    requires |pattern| > 0
    ensures pattern == replacement ==> r == s
    ensures !Contains(s, pattern) ==> r == s
    ensures |pattern| <= |replacement| ==> |s| <= |r|
    ensures |replacement| <= |pattern| ==> |r| <= |s|
    decreases |s|
  {
    if s == [] then []
    else if StartsWith(s, pattern) then
      assert s == pattern + s[|pattern|..];
      replacement + ReplaceAll(s[|pattern|..], pattern, replacement)
    else
      assert s == [s[0]] + s[1..];
      [s[0]] + ReplaceAll(s[1..], pattern, replacement)
  }

  /** A prefix none of whose characters can start the pattern is copied through. */
  lemma {:induction false} CopiedThrough(u: string, s: string, pattern: string, replacement: string)
    requires |pattern| > 0 && pattern[0] !in u
    ensures ReplaceAll(u + s, pattern, replacement) == u + ReplaceAll(s, pattern, replacement)
    decreases |u|
  {
    if u != [] {
      var v := u + s;
      assert v[0] == u[0] && v[1..] == u[1..] + s;
      assert !StartsWith(v, pattern) by {
        if |pattern| <= |v| { assert v[..|pattern|][0] == u[0]; }
      }
      assert ReplaceAll(v, pattern, replacement) == [u[0]] + ReplaceAll(v[1..], pattern, replacement);
      CopiedThrough(u[1..], s, pattern, replacement);
      var r := ReplaceAll(s, pattern, replacement);
      assert [u[0]] + (u[1..] + r) == ([u[0]] + u[1..]) + r;
      assert [u[0]] + u[1..] == u;
    } else {
      assert u + s == s;
    }
  }

  /**
   * A replacement changes the string exactly when the pattern occurs and
   * differs from its replacement.
   */
  lemma {:induction false} ReplaceAllChanges(s: string, pattern: string, replacement: string)
    requires |pattern| > 0
    ensures ReplaceAll(s, pattern, replacement) != s <==> Contains(s, pattern) && pattern != replacement
  {
    var r := ReplaceAll(s, pattern, replacement);
    if s == [] {
    } else if StartsWith(s, pattern) {
      if pattern != replacement {
        var rest := s[|pattern|..];
        assert s == pattern + rest;
        assert r == replacement + ReplaceAll(rest, pattern, replacement);
        if |replacement| == |pattern| {
          assert r[..|pattern|] == replacement;
          assert s[..|pattern|] == pattern;
        } else if |replacement| < |pattern| {
          assert |r| < |s|;
        } else {
          assert |r| > |s|;
        }
      }
    } else {
      ReplaceAllChanges(s[1..], pattern, replacement);
      assert s == [s[0]] + s[1..];
    }
  }
}
