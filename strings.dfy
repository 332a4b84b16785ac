/**
  The few operations on Python `str` values that the lunch map relies on:
  `strip()`, `startswith`, the substring test `in`, `split('\n')`,
  `split(':', 1)[1]` and `replace`.  Strings are sequences of Unicode scalar values.
 */
module Strings {

  /** Python's `str.isspace()` for one character: the characters `strip()` removes. */
  predicate IsSpace(c: char)
  {
    c in {'\t', '\n', '\U{0B}', '\U{0C}', '\r', '\U{1C}', '\U{1D}', '\U{1E}', '\U{1F}', ' ',
          '\U{85}', '\U{A0}', '\U{1680}',
          '\U{2000}', '\U{2001}', '\U{2002}', '\U{2003}', '\U{2004}', '\U{2005}', '\U{2006}',
          '\U{2007}', '\U{2008}', '\U{2009}', '\U{200A}',
          '\U{2028}', '\U{2029}', '\U{202F}', '\U{205F}', '\U{3000}'}
  }

  ghost predicate AllSpace(s: string)
  {
    forall k :: 0 <= k < |s| ==> IsSpace(s[k])
  }

  /** `s.lstrip()`: drops the leading white space. */
  function TrimStart(s: string): string
  {
    if s != [] && IsSpace(s[0]) then TrimStart(s[1..]) else s
  }

  /** `s.rstrip()`: drops the trailing white space. */
  function TrimEnd(s: string): string
  {
    if s != [] && IsSpace(s[|s| - 1]) then TrimEnd(s[..|s| - 1]) else s
  }

  /** `s.strip()`. */
  function Strip(s: string): string
  {
    TrimEnd(TrimStart(s))
  }

  /** `lstrip` keeps a suffix, removes only white space, and stops at a non-space. */
  lemma {:induction false} TrimStartSpec(s: string)
    ensures var r := TrimStart(s);
            |r| <= |s| && r == s[|s| - |r|..] && AllSpace(s[..|s| - |r|])
            && (r == [] || !IsSpace(r[0]))
  {
    if s != [] && IsSpace(s[0]) {
      TrimStartSpec(s[1..]);
      var r := TrimStart(s);
      assert s[..|s| - |r|] == [s[0]] + s[1..][..|s[1..]| - |r|];
    }
  }

  /** `rstrip` keeps a prefix, removes only white space, and stops at a non-space. */
  lemma {:induction false} TrimEndSpec(s: string)
    ensures var r := TrimEnd(s);
            |r| <= |s| && r == s[..|r|] && AllSpace(s[|r|..])
            && (r == [] || !IsSpace(r[|r| - 1]))
  {
    if s != [] && IsSpace(s[|s| - 1]) {
      var t := s[..|s| - 1];
      TrimEndSpec(t);
      var r := TrimEnd(s);
      assert s[|r|..] == t[|r|..] + [s[|s| - 1]];
    }
  }

  /**
    What `strip()` removes is white space, and only that: `s` is white space, then the
    result, then white space, and the result neither begins nor ends with white space.
   */
  lemma StripSpec(s: string)
    ensures var r := Strip(s);
            (exists i :: 0 <= i <= |s| - |r| && s[i..i + |r|] == r
                        && AllSpace(s[..i]) && AllSpace(s[i + |r|..]))
            && (r == [] || (!IsSpace(r[0]) && !IsSpace(r[|r| - 1])))
  {
    var t := TrimStart(s);
    TrimStartSpec(s);
    TrimEndSpec(t);
    var r := TrimEnd(t);
    var i := |s| - |t|;
    assert s[i..i + |r|] == r;
    assert s[i + |r|..] == t[|r|..];
  }

  /** `lstrip` stops at the first non-space: it keeps every character from there on. */
  lemma {:induction false} TrimStartKeeps(s: string, a: nat)
    requires a < |s| && !IsSpace(s[a])
    ensures exists i :: 0 <= i <= a && TrimStart(s) == s[i..]
  {
    if IsSpace(s[0]) {
      TrimStartKeeps(s[1..], a - 1);
      var i :| 0 <= i <= a - 1 && TrimStart(s[1..]) == s[1..][i..];
      assert s[1..][i..] == s[i + 1..];
    } else {
      assert TrimStart(s) == s[0..];
    }
  }

  /** `rstrip` stops at the last non-space: it keeps every character up to there. */
  lemma {:induction false} TrimEndKeeps(s: string, b: nat)
    requires b < |s| && !IsSpace(s[b])
    ensures exists j :: b < j <= |s| && TrimEnd(s) == s[..j]
  {
    if IsSpace(s[|s| - 1]) {
      var t := s[..|s| - 1];
      assert t[b] == s[b];
      TrimEndKeeps(t, b);
      var j :| b < j <= |t| && TrimEnd(t) == t[..j];
      assert t[..j] == s[..j];
    } else {
      assert TrimEnd(s) == s[..|s|];
    }
  }

  /** `strip()` keeps everything between two non-space characters. */
  lemma StripKeeps(s: string, a: nat, b: nat)
    requires a <= b < |s| && !IsSpace(s[a]) && !IsSpace(s[b])
    ensures exists i, j :: 0 <= i <= a && b < j <= |s| && Strip(s) == s[i..j]
  {
    TrimStartKeeps(s, a);
    var i :| 0 <= i <= a && TrimStart(s) == s[i..];
    var t := s[i..];
    assert t[b - i] == s[b];
    TrimEndKeeps(t, b - i);
    var j :| b - i < j <= |t| && TrimEnd(t) == t[..j];
    assert t[..j] == s[i..i + j];
  }

  /** `strip()` introduces no character: one absent from `s` is absent from `s.strip()`. */
  lemma StripAbsent(s: string, c: char)
    requires c !in s
    ensures c !in Strip(s)
  {
    var r := Strip(s);
    StripSpec(s);
    var i :| 0 <= i <= |s| - |r| && s[i..i + |r|] == r && AllSpace(s[..i]) && AllSpace(s[i + |r|..]);
    forall k | 0 <= k < |r| ensures r[k] != c {
      assert r[k] == s[i + k];
    }
  }

  /** A string that neither begins nor ends with white space is its own `strip()`. */
  lemma StripUnchanged(s: string)
    requires s == [] || (!IsSpace(s[0]) && !IsSpace(s[|s| - 1]))
    ensures Strip(s) == s
  {
    assert TrimStart(s) == s;
  }

  /** `s.startswith(p)`. */
  predicate StartsWith(s: string, p: string)
  {
    |p| <= |s| && s[..|p|] == p
  }

  /** `t` occurs in `s` at position `i`. */
  predicate OccursAt(s: string, t: string, i: int)
  {
    0 <= i && i + |t| <= |s| && s[i..i + |t|] == t
  }

  /** Python's `t in s` for strings: `t` is a substring of `s`. */
  predicate Contains(s: string, t: string)
  {
    exists i :: 0 <= i <= |s| && OccursAt(s, t, i)
  }

  /** `s.find(t, i)`: the first position at or after `i` where `t` occurs, or -1. */
  function FindFrom(s: string, t: string, i: nat): (r: int)
    ensures r == -1 || (i <= r && OccursAt(s, t, r))
    ensures r == -1 ==> forall k :: i <= k ==> !OccursAt(s, t, k)
    ensures r != -1 ==> forall k :: i <= k < r ==> !OccursAt(s, t, k)
    decreases |s| - i
  {
    if i + |t| > |s| then -1
    else if s[i..i + |t|] == t then i
    else FindFrom(s, t, i + 1)
  }

  lemma {:induction false} FindFromWitness(s: string, t: string, i: nat, k: nat)
    requires i <= k && OccursAt(s, t, k)
    ensures i <= FindFrom(s, t, i) <= k
  {
  }

  /** `s.split(':', 1)[1]`: what follows the first colon of `s`. */
  function AfterFirstColon(s: string): string
    requires ':' in s
  {
    if s[0] == ':' then s[1..]
    else
      assert s[1..][FirstColonIndex(s) - 1] == ':';
      AfterFirstColon(s[1..])
  }

  /** The position of some colon of `s`. */
  ghost function FirstColonIndex(s: string): (i: nat)
    requires ':' in s
    ensures i < |s| && s[i] == ':'
  {
    var i :| 0 <= i < |s| && s[i] == ':'; i
  }

  /** The result is the text after a colon that no earlier colon precedes. */
  lemma {:induction false} AfterFirstColonSpec(s: string)
    requires ':' in s
    ensures var r := AfterFirstColon(s);
            |r| < |s| && r == s[|s| - |r|..]
            && s[|s| - |r| - 1] == ':' && ':' !in s[..|s| - |r| - 1]
  {
    if s[0] != ':' {
      assert s[1..][FirstColonIndex(s) - 1] == ':';
      AfterFirstColonSpec(s[1..]);
      var r := AfterFirstColon(s[1..]);
      assert s[..|s| - |r| - 1] == [s[0]] + s[1..][..|s[1..]| - |r| - 1];
    }
  }

  /**
    The text after a marker that ends in its only colon is what follows the first colon
    of any line beginning with that marker.
   */
  lemma AfterMarker(line: string, marker: string)
    requires StartsWith(line, marker) && |marker| > 0
    requires marker[|marker| - 1] == ':' && ':' !in marker[..|marker| - 1]
    ensures ':' in line && AfterFirstColon(line) == line[|marker|..]
  {
    assert line[|marker| - 1] == ':';
    AfterFirstColonSpec(line);
    var r := AfterFirstColon(line);
    var c := |line| - |r| - 1;
    assert c == |marker| - 1;
  }

  /** `s.split('\n')`: the pieces of `s` between line feeds, always at least one. */
  function SplitLines(s: string): (r: seq<string>)
    ensures |r| >= 1
    ensures forall k :: 0 <= k < |r| ==> '\n' !in r[k]
    decreases |s|
  {
    if s == [] then [[]]
    else
      var rest := SplitLines(s[1..]);
      if s[0] == '\n' then [[]] + rest
      else [[s[0]] + rest[0]] + rest[1..]
  }

  /** `'\n'.join(lines)`, the inverse of `SplitLines`. */
  function JoinLines(lines: seq<string>): string
    requires |lines| >= 1
  {
    if |lines| == 1 then lines[0] else lines[0] + "\n" + JoinLines(lines[1..])
  }

  /** Splitting and joining again gives back the original text. */
  lemma {:induction false} JoinSplitLines(s: string)
    ensures JoinLines(SplitLines(s)) == s
    decreases |s|
  {
    if s != [] {
      JoinSplitLines(s[1..]);
      var rest := SplitLines(s[1..]);
      if s[0] == '\n' {
        assert [[]] + rest == [[]] + rest[..];
        assert ([[]] + rest)[1..] == rest;
      } else {
        var r := [[s[0]] + rest[0]] + rest[1..];
        if |rest| == 1 {
        } else {
          assert r[1..] == rest[1..];
          assert JoinLines(rest) == rest[0] + "\n" + JoinLines(rest[1..]);
        }
      }
    }
  }

  /** Joining lines free of line feeds and splitting again gives back the lines. */
  lemma {:induction false} SplitJoinLines(lines: seq<string>)
    requires |lines| >= 1
    requires forall k :: 0 <= k < |lines| ==> '\n' !in lines[k]
    ensures SplitLines(JoinLines(lines)) == lines
    decreases |lines|, |lines[0]|
  {
    if |lines| == 1 {
      SplitNoLineFeed(lines[0]);
    } else if lines[0] == [] {
      SplitJoinLines(lines[1..]);
      SplitLineFeed(JoinLines(lines[1..]));
    } else {
      var head := lines[0];
      var shorter := [head[1..]] + lines[1..];
      assert shorter[1..] == lines[1..];
      assert '\n' !in head[1..];
      SplitJoinLines(shorter);
      assert JoinLines(lines) == [head[0]] + JoinLines(shorter);
      SplitOther(head[0], JoinLines(shorter));
      assert [head[0]] + head[1..] == head;
    }
  }

  lemma SplitLineFeed(s: string)
    ensures SplitLines("\n" + s) == [[]] + SplitLines(s)
  {
    assert ("\n" + s)[1..] == s;
  }

  lemma SplitOther(c: char, s: string)
    requires c != '\n'
    ensures SplitLines([c] + s) == [[c] + SplitLines(s)[0]] + SplitLines(s)[1..]
  {
    assert ([c] + s)[1..] == s;
  }

  lemma {:induction false} SplitNoLineFeed(s: string)
    requires '\n' !in s
    ensures SplitLines(s) == [s]
    decreases |s|
  {
    if s != [] {
      assert '\n' !in s[1..];
      SplitNoLineFeed(s[1..]);
      assert [s[0]] + s[1..] == s;
    }
  }

  /** An occurrence in a suffix of `s` is an occurrence in `s`, shifted, and conversely. */
  lemma OccursInSuffix(s: string, t: string, n: nat, j: nat)
    requires n <= |s|
    ensures OccursAt(s[n..], t, j) <==> OccursAt(s, t, n + j)
  {
    if n + j + |t| <= |s| {
      assert s[n..][j..j + |t|] == s[n + j..n + j + |t|];
    }
  }

  /**
    `s.replace(p, x)`: every occurrence of `p`, found from left to right without overlap,
    replaced by `x`.
   */
  function ReplaceAll(s: string, p: string, x: string): string
    requires |p| > 0
    decreases |s|
  {
    if |s| < |p| then s
    else if s[..|p|] == p then x + ReplaceAll(s[|p|..], p, x)
    else [s[0]] + ReplaceAll(s[1..], p, x)
  }

  /** Text in which the pattern does not occur is left as it is. */
  lemma {:induction false} ReplaceAbsent(s: string, p: string, x: string)
    requires |p| > 0
    requires forall k :: 0 <= k ==> !OccursAt(s, p, k)
    ensures ReplaceAll(s, p, x) == s
    decreases |s|
  {
    if |s| >= |p| {
      assert !OccursAt(s, p, 0);
      forall k | 0 <= k
        ensures !OccursAt(s[1..], p, k)
      {
        assert !OccursAt(s, p, k + 1);
        OccursInSuffix(s, p, 1, k);
      }
      ReplaceAbsent(s[1..], p, x);
      assert [s[0]] + s[1..] == s;
    }
  }

  /**
    The text before the first occurrence is kept, that occurrence becomes `x`, and
    replacing goes on after it.
   */
  lemma {:induction false} ReplaceFirst(s: string, p: string, x: string, k: nat)
    requires |p| > 0 && OccursAt(s, p, k)
    requires forall j :: 0 <= j < k ==> !OccursAt(s, p, j)
    ensures ReplaceAll(s, p, x) == s[..k] + x + ReplaceAll(s[k + |p|..], p, x)
    decreases k
  {
    if k == 0 {
      ReplaceHere(s, p, x);
    } else {
      var t := s[1..];
      ReplaceSkip(s, p, x);
      NoneBeforeInSuffix(s, p, k);
      ReplaceFirst(t, p, x, k - 1);
      assert t[k - 1 + |p|..] == s[k + |p|..];
      var rest := ReplaceAll(s[k + |p|..], p, x);
      assert ReplaceAll(t, p, x) == t[..k - 1] + x + rest;
      ConsSplit(s, k, x, rest);
    }
  }

  lemma ReplaceHere(s: string, p: string, x: string)
    requires |p| > 0 && OccursAt(s, p, 0)
    ensures ReplaceAll(s, p, x) == s[..0] + x + ReplaceAll(s[|p|..], p, x)
  {
    assert s[..|p|] == p;
    assert s[..0] + x == x;
  }

  lemma ConsSplit(s: string, k: nat, x: string, rest: string)
    requires 0 < k <= |s|
    ensures [s[0]] + (s[1..][..k - 1] + x + rest) == s[..k] + x + rest
  {
    assert [s[0]] + s[1..][..k - 1] == s[..k];
  }

  lemma ReplaceSkip(s: string, p: string, x: string)
    requires |p| > 0 && |s| >= |p| && !OccursAt(s, p, 0)
    ensures ReplaceAll(s, p, x) == [s[0]] + ReplaceAll(s[1..], p, x)
  {
  }

  lemma NoneBeforeInSuffix(s: string, p: string, k: nat)
    requires 0 < k && OccursAt(s, p, k)
    requires forall j :: 0 <= j < k ==> !OccursAt(s, p, j)
    ensures OccursAt(s[1..], p, k - 1)
    ensures forall j :: 0 <= j < k - 1 ==> !OccursAt(s[1..], p, j)
  {
    forall j | 0 <= j < k - 1
      ensures !OccursAt(s[1..], p, j)
    {
      assert !OccursAt(s, p, j + 1);
      OccursInSuffix(s, p, 1, j);
    }
    OccursInSuffix(s, p, 1, k - 1);
  }

  /** A text with exactly one occurrence of the pattern gets exactly that occurrence replaced. */
  lemma ReplaceSingle(s: string, p: string, x: string, k: nat)
    requires |p| > 0 && OccursAt(s, p, k)
    requires forall j :: 0 <= j && j != k ==> !OccursAt(s, p, j)
    ensures ReplaceAll(s, p, x) == s[..k] + x + s[k + |p|..]
  {
    ReplaceFirst(s, p, x, k);
    var rest := s[k + |p|..];
    forall j | 0 <= j
      ensures !OccursAt(rest, p, j)
    {
      assert !OccursAt(s, p, k + |p| + j);
      OccursInSuffix(s, p, k + |p|, j);
    }
    ReplaceAbsent(rest, p, x);
  }
}
