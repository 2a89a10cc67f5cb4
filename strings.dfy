/**
 * Character and string helpers with Python's meaning: `str.isspace`,
 * `str.lower` (ASCII letters), `startswith`, `endswith`, the substring
 * test `sub in s`, `strip`, and `str.split` on a one-character separator.
 */
module Strings {

  /** Python's `str.isspace` (also what `\s` matches in a `str` regex). */
  predicate IsSpace(c: char) {
    || c == ' '
    || ('\t' <= c <= '\r')
    || ('\U{1C}' <= c <= '\U{1F}')
    || c == '\U{85}' || c == '\U{A0}' || c == '\U{1680}'
    || ('\U{2000}' <= c <= '\U{200A}')
    || c == '\U{2028}' || c == '\U{2029}' || c == '\U{202F}' || c == '\U{205F}' || c == '\U{3000}'
  }

  function LowerChar(c: char): (r: char)
    ensures 'A' <= c <= 'Z' ==> 'a' <= r <= 'z'
    ensures !('A' <= c <= 'Z') ==> r == c
  {
    if 'A' <= c <= 'Z' then (c as int + 32) as char else c
  }

  /** `s.lower()`, folding the ASCII letters only. */
  function Lower(s: string): (r: string)
    ensures |r| == |s|
    ensures forall i :: 0 <= i < |s| ==> r[i] == LowerChar(s[i])
  {
    seq(|s|, i requires 0 <= i < |s| => LowerChar(s[i]))
  }

  predicate StartsWith(s: string, prefix: string) {
    |prefix| <= |s| && s[..|prefix|] == prefix
  }

  predicate EndsWith(s: string, suffix: string) {
    |suffix| <= |s| && s[|s| - |suffix|..] == suffix
  }

  /** Python's `sub in s`. */
  predicate Contains(s: string, sub: string)
    decreases |s|
  {
    StartsWith(s, sub) || (s != [] && Contains(s[1..], sub))
  }

  /** `t` is a contiguous piece of `s`. */
  ghost predicate IsSliceOf(t: string, s: string) {
    exists a, b :: 0 <= a <= b <= |s| && s[a..b] == t
  }

  lemma {:induction false} ContainsSlice(s: string, sub: string)
    ensures Contains(s, sub) <==> IsSliceOf(sub, s)
    decreases |s|
  {
    if Contains(s, sub) {
      ContainsIsSlice(s, sub);
    }
    if IsSliceOf(sub, s) {
      var a, b :| 0 <= a <= b <= |s| && s[a..b] == sub;
      SliceIsContained(s, sub, a);
    }
  }

  lemma {:induction false} ContainsIsSlice(s: string, sub: string)
    requires Contains(s, sub)
    ensures IsSliceOf(sub, s)
    decreases |s|
  {
    if StartsWith(s, sub) {
      assert s[0..|sub|] == sub;
    } else {
      ContainsIsSlice(s[1..], sub);
      var a, b :| 0 <= a <= b <= |s[1..]| && s[1..][a..b] == sub;
      assert s[a + 1..b + 1] == s[1..][a..b];
    }
  }

  lemma {:induction false} SliceIsContained(s: string, sub: string, a: nat)
    requires a + |sub| <= |s| && s[a..a + |sub|] == sub
    ensures Contains(s, sub)
    decreases a
  {
    if a > 0 {
      assert s[1..][a - 1..a - 1 + |sub|] == s[a..a + |sub|];
      SliceIsContained(s[1..], sub, a - 1);
    }
  }

  lemma SliceOfSlice(t: string, u: string, s: string)
    requires IsSliceOf(t, u) && IsSliceOf(u, s)
    ensures IsSliceOf(t, s)
  {
    var a, b :| 0 <= a <= b <= |u| && u[a..b] == t;
    var c, d :| 0 <= c <= d <= |s| && s[c..d] == u;
    assert |u| == d - c;
    assert forall i :: a <= i < b ==> u[i] == s[c + i];
    assert s[c + a..c + b] == u[a..b];
  }

  lemma SliceIsSlice(s: string, a: nat, b: nat)
    requires a <= b <= |s|
    ensures IsSliceOf(s[a..b], s)
  {
  }

  lemma SliceOfLower(t: string, s: string)
    requires IsSliceOf(t, s)
    ensures IsSliceOf(Lower(t), Lower(s))
  {
    var a, b :| 0 <= a <= b <= |s| && s[a..b] == t;
    assert Lower(s)[a..b] == Lower(t);
  }

  /** Drops leading whitespace. */
  function TrimLeft(s: string): (r: string)
    ensures r == [] || !IsSpace(r[0])
    ensures |r| <= |s| && r == s[|s| - |r|..]
    ensures forall i :: 0 <= i < |s| - |r| ==> IsSpace(s[i])
  {
    if s != [] && IsSpace(s[0]) then TrimLeft(s[1..]) else s
  }

  /** Drops trailing whitespace. */
  function TrimRight(s: string): (r: string)
    ensures r == [] || !IsSpace(r[|r| - 1])
    ensures |r| <= |s| && r == s[..|r|]
    ensures forall i :: |r| <= i < |s| ==> IsSpace(s[i])
  {
    if s != [] && IsSpace(s[|s| - 1]) then TrimRight(s[..|s| - 1]) else s
  }

  /** Every character is whitespace. */
  predicate AllSpace(s: string) {
    forall k :: 0 <= k < |s| ==> IsSpace(s[k])
  }

  /** Whitespace in front of a text that starts with non-whitespace is
      exactly what `TrimLeft` removes. */
  lemma {:induction false} TrimLeftRun(ws: string, q: string)
    requires AllSpace(ws)
    requires q == [] || !IsSpace(q[0])
    ensures TrimLeft(ws + q) == q
    decreases |ws|
  {
    if ws != [] {
      assert (ws + q)[1..] == ws[1..] + q;
      TrimLeftRun(ws[1..], q);
    }
  }

  /** Whitespace after a text that ends with non-whitespace is exactly what
      `TrimRight` removes. */
  lemma {:induction false} TrimRightRun(q: string, ws: string)
    requires AllSpace(ws)
    requires q == [] || !IsSpace(q[|q| - 1])
    ensures TrimRight(q + ws) == q
    decreases |ws|
  {
    if ws != [] {
      assert (q + ws)[..|q + ws| - 1] == q + ws[..|ws| - 1];
      TrimRightRun(q, ws[..|ws| - 1]);
    } else {
      assert q + ws == q;
    }
  }

  /** `s.strip()`. */
  function Strip(s: string): (r: string)
    ensures r == [] || (!IsSpace(r[0]) && !IsSpace(r[|r| - 1]))
    ensures IsSliceOf(r, s)
  {
    var l := TrimLeft(s);
    var r := TrimRight(l);
    assert s[|s| - |l|..][..|r|] == s[|s| - |l|..|s| - |l| + |r|];
    r
  }

  /** `s.split(sep)` for a one-character separator: every piece, empty ones included. */
  function SplitOn(s: string, sep: char): (r: seq<string>)
    ensures |r| >= 1
    decreases |s|
  {
    if s == [] then [[]]
    else if s[0] == sep then [[]] + SplitOn(s[1..], sep)
    else
      var rest := SplitOn(s[1..], sep);
      [[s[0]] + rest[0]] + rest[1..]
  }

  /** `sep.join(parts)`. */
  function Join(parts: seq<string>, sep: char): string
    requires |parts| >= 1
    decreases |parts|
  {
    if |parts| == 1 then parts[0] else parts[0] + [sep] + Join(parts[1..], sep)
  }

  /** Joining the pieces back with the separator gives the original string. */
  lemma {:induction false} JoinSplitOn(s: string, sep: char)
    ensures Join(SplitOn(s, sep), sep) == s
    decreases |s|
  {
    if s == [] {
    } else if s[0] == sep {
      JoinSplitOn(s[1..], sep);
      var rest := SplitOn(s[1..], sep);
      assert SplitOn(s, sep) == [[]] + rest;
      assert SplitOn(s, sep)[1..] == rest;
      assert s == [] + [sep] + s[1..];
    } else {
      JoinSplitOn(s[1..], sep);
      var rest := SplitOn(s[1..], sep);
      var r := SplitOn(s, sep);
      assert r == [[s[0]] + rest[0]] + rest[1..];
      if |rest| == 1 {
        assert s == [s[0]] + s[1..];
      } else {
        assert r[1..] == rest[1..];
        assert Join(rest, sep) == rest[0] + [sep] + Join(rest[1..], sep);
        assert s == [s[0]] + s[1..];
      }
    }
  }

  /** No piece holds the separator. */
  predicate NoneHolds(parts: seq<string>, sep: char) {
    forall k :: 0 <= k < |parts| ==> sep !in parts[k]
  }

  /** The pieces of a split never hold the separator. */
  lemma {:induction false} SplitOnPieces(s: string, sep: char)
    ensures NoneHolds(SplitOn(s, sep), sep)
    decreases |s|
  {
    if s != [] {
      SplitOnPieces(s[1..], sep);
      var rest := SplitOn(s[1..], sep);
      var r := SplitOn(s, sep);
      if s[0] == sep {
        assert r == [[]] + rest;
        assert forall k :: 1 <= k < |r| ==> r[k] == rest[k - 1];
      } else {
        assert r == [[s[0]] + rest[0]] + rest[1..];
        forall k | 0 <= k < |r| ensures sep !in r[k] {
          if k > 0 {
            assert r[k] == rest[k];
          }
        }
      }
    }
  }

  /** Splitting a join of separator-free pieces gives back the pieces. */
  lemma {:induction false} SplitOnJoin(parts: seq<string>, sep: char)
    requires |parts| >= 1
    requires NoneHolds(parts, sep)
    ensures SplitOn(Join(parts, sep), sep) == parts
    decreases |parts|, |parts[0]|
  {
    var p := parts[0];
    if |parts| == 1 {
      if p != [] {
        var tail := [p[1..]];
        SplitOnJoin(tail, sep);
        assert Join(tail, sep) == p[1..];
        assert p == [p[0]] + p[1..];
      }
    } else if p == [] {
      SplitOnJoin(parts[1..], sep);
      assert Join(parts, sep) == [sep] + Join(parts[1..], sep);
      assert parts == [[]] + parts[1..];
    } else {
      var shorter := [p[1..]] + parts[1..];
      assert shorter[1..] == parts[1..];
      SplitOnJoin(shorter, sep);
      var j := Join(parts, sep);
      assert j == [p[0]] + Join(shorter, sep);
      assert j[1..] == Join(shorter, sep);
      assert p == [p[0]] + p[1..];
      assert parts == [[p[0]] + p[1..]] + parts[1..];
    }
  }
}
