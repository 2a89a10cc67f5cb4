/**
 * Component extraction: the lower-cased task is split wherever the regular
 * expression `\s+(?:and|with|plus|\+|,)\s+` matches, each piece is stripped,
 * loses a leading verb and a trailing noun, and is kept when it is longer than
 * two characters.
 */
module TaskComponents {
  import opened Wrappers
  import opened Strings

  /** The end of the whitespace run that starts at `i`. */
  function RunEnd(s: string, i: nat): (e: nat)
    requires i <= |s|
    ensures i <= e <= |s|
    decreases |s| - i
  {
    if i < |s| && IsSpace(s[i]) then RunEnd(s, i + 1) else i
  }

  /** The run is whitespace and is followed by non-whitespace or the end. */
  lemma {:induction false} RunEndSpec(s: string, i: nat)
    requires i <= |s|
    ensures forall k :: i <= k < RunEnd(s, i) ==> IsSpace(s[k])
    ensures RunEnd(s, i) == |s| || !IsSpace(s[RunEnd(s, i)])
    decreases |s| - i
  {
    if i < |s| && IsSpace(s[i]) {
      RunEndSpec(s, i + 1);
    }
  }

  /** The alternatives of the separator, in the order the regex tries them. */
  const Connectives: seq<string> := ["and", "with", "plus", "+", ","]

  /** The leading verbs `^(add|create|build|implement|write)\s+` removes. */
  const Verbs: seq<string> := ["add", "create", "build", "implement", "write"]

  /** The trailing nouns `\s+(feature|component|module|endpoint|page)s?$` removes. */
  const Nouns: seq<string> := ["feature", "component", "module", "endpoint", "page"]

  /** The first of `words` that begins `t` and is followed by whitespace: an
      alternation `(w1|w2|...)\s+` anchored at the start of `t`. */
  function FirstWordBeforeSpace(t: string, words: seq<string>): (r: Option<string>)
    ensures r.Some? ==> |r.value| < |t|
    decreases |words|
  {
    if words == [] then None
    else if StartsWith(t, words[0]) && |words[0]| < |t| && IsSpace(t[|words[0]|]) then Some(words[0])
    else FirstWordBeforeSpace(t, words[1..])
  }

  /** The word found begins `t`, is one of `words` and is followed by
      whitespace; when none is found, no word of `words` qualifies. */
  lemma {:induction false} FirstWordSpec(t: string, words: seq<string>)
    ensures var r := FirstWordBeforeSpace(t, words);
      r.Some? ==> r.value in words && StartsWith(t, r.value) && |r.value| < |t| && IsSpace(t[|r.value|])
    ensures FirstWordBeforeSpace(t, words).None? ==> forall k :: 0 <= k < |words| ==>
      !(StartsWith(t, words[k]) && |words[k]| < |t| && IsSpace(t[|words[k]|]))
    decreases |words|
  {
    if words != [] && !(StartsWith(t, words[0]) && |words[0]| < |t| && IsSpace(t[|words[0]|])) {
      FirstWordSpec(t, words[1..]);
      assert forall k :: 1 <= k < |words| ==> words[k] == words[1..][k - 1];
    }
  }

  /** Where a separator match that starts at `i` ends, if one does. The first
      `\s+` takes the whole whitespace run (giving any of it back would leave
      a connective starting on whitespace), and the second one is greedy. */
  function SeparatorAt(s: string, i: nat): (r: Option<nat>)
    requires i <= |s|
    ensures r.Some? ==> i < r.value <= |s|
  {
    if i < |s| && IsSpace(s[i]) then
      var e := RunEnd(s, i);
      match FirstWordBeforeSpace(s[e..], Connectives)
      case Some(w) => Some(RunEnd(s, e + |w|))
      case None => None
    else None
  }

  /** The pieces `re.split` returns and the separator texts between them. */
  datatype Pieces = Pieces(parts: seq<string>, seps: seq<string>)

  /** Scanning from `i` for the leftmost match, the current piece starting at
      `start`; after a match the scan resumes where the match ended. */
  function SplitFrom(s: string, start: nat, i: nat): (r: Pieces)
    requires start <= i <= |s|
    ensures |r.parts| == |r.seps| + 1
    decreases |s| - i
  {
    if i == |s| then Pieces([s[start..]], [])
    else
      match SeparatorAt(s, i)
      case Some(e) =>
        var rest := SplitFrom(s, e, e);
        Pieces([s[start..i]] + rest.parts, [s[i..e]] + rest.seps)
      case None => SplitFrom(s, start, i + 1)
  }

  function Split(s: string): (r: Pieces)
    ensures |r.parts| == |r.seps| + 1
  {
    SplitFrom(s, 0, 0)
  }

  /** Pieces put back together with the separators between them. */
  function Interleave(parts: seq<string>, seps: seq<string>): string
    requires |parts| == |seps| + 1
    decreases |seps|
  {
    if seps == [] then parts[0] else parts[0] + seps[0] + Interleave(parts[1..], seps[1..])
  }

  /** A text the separator regex matches as a whole: whitespace, a connective,
      whitespace. */
  ghost predicate IsSeparatorText(t: string) {
    exists a, b :: 0 < a < b < |t| && t[a..b] in Connectives
      && (forall k :: 0 <= k < a ==> IsSpace(t[k]))
      && (forall k :: b <= k < |t| ==> IsSpace(t[k]))
  }

  ghost predicate AllSeparators(seps: seq<string>) {
    forall k :: 0 <= k < |seps| ==> IsSeparatorText(seps[k])
  }

  lemma InterleaveCons(x: string, y: string, parts: seq<string>, seps: seq<string>)
    requires |parts| == |seps| + 1
    ensures Interleave([x] + parts, [y] + seps) == x + y + Interleave(parts, seps)
  {
    assert ([x] + parts)[1..] == parts && ([y] + seps)[1..] == seps;
  }

  lemma ThreeSlices(s: string, start: nat, i: nat, e: nat)
    requires start <= i <= e <= |s|
    ensures s[start..] == s[start..i] + s[i..e] + s[e..]
  {
  }

  /** Splitting loses nothing: the pieces and separators give back the text. */
  lemma {:induction false} SplitRebuilds(s: string, start: nat, i: nat)
    requires start <= i <= |s|
    ensures Interleave(SplitFrom(s, start, i).parts, SplitFrom(s, start, i).seps) == s[start..]
    decreases |s| - i
  {
    if i < |s| {
      match SeparatorAt(s, i)
      case Some(e) =>
        SplitRebuilds(s, e, e);
        var rest := SplitFrom(s, e, e);
        InterleaveCons(s[start..i], s[i..e], rest.parts, rest.seps);
        ThreeSlices(s, start, i, e);
      case None =>
        SplitRebuilds(s, start, i + 1);
    }
  }

  lemma AllSeparatorsCons(t: string, seps: seq<string>)
    requires IsSeparatorText(t) && AllSeparators(seps)
    ensures AllSeparators([t] + seps)
  {
    forall k | 0 <= k < |[t] + seps| ensures IsSeparatorText(([t] + seps)[k]) {
      if k > 0 {
        assert ([t] + seps)[k] == seps[k - 1];
      }
    }
  }

  /** Each separator the split found is a whole match of the regex. */
  lemma {:induction false} SplitSeparators(s: string, start: nat, i: nat)
    requires start <= i <= |s|
    ensures AllSeparators(SplitFrom(s, start, i).seps)
    decreases |s| - i
  {
    if i < |s| {
      match SeparatorAt(s, i)
      case Some(e) =>
        SplitSeparators(s, e, e);
        SeparatorTextAt(s, i);
        AllSeparatorsCons(s[i..e], SplitFrom(s, e, e).seps);
      case None =>
        SplitSeparators(s, start, i + 1);
    }
  }

  /** The text of a match is a separator text. */
  lemma SeparatorTextAt(s: string, i: nat)
    requires i <= |s| && SeparatorAt(s, i).Some?
    ensures IsSeparatorText(s[i..SeparatorAt(s, i).value])
  {
    var e := RunEnd(s, i);
    var w := FirstWordBeforeSpace(s[e..], Connectives).value;
    FirstWordSpec(s[e..], Connectives);
    RunEndSpec(s, i);
    RunEndSpec(s, e + |w|);
    PrefixAt(s, e, w);
    SeparatorTextParts(s, i, e, e + |w|, SeparatorAt(s, i).value);
  }

  lemma SeparatorTextParts(s: string, i: nat, a: nat, b: nat, end: nat)
    requires i < a < b < end <= |s|
    requires s[a..b] in Connectives
    requires forall k :: i <= k < a ==> IsSpace(s[k])
    requires forall k :: b <= k < end ==> IsSpace(s[k])
    ensures IsSeparatorText(s[i..end])
  {
    var t := s[i..end];
    assert forall k :: 0 <= k < |t| ==> t[k] == s[i + k];
    assert t[a - i..b - i] == s[a..b];
  }

  /** No character of `w` is whitespace. */
  predicate NoSpace(w: string) {
    forall k :: 0 <= k < |w| ==> !IsSpace(w[k])
  }

  /** The characters the words below are made of; none is whitespace. */
  predicate Plain(w: string) {
    forall k :: 0 <= k < |w| ==> 'a' <= w[k] <= 'z' || w[k] == '+' || w[k] == ','
  }

  lemma PlainNoSpace(w: string)
    requires Plain(w)
    ensures NoSpace(w) && NoSpace(w + "s")
  {
    assert forall k :: 0 <= k < |w + "s"| ==> (w + "s")[k] == if k < |w| then w[k] else 's';
  }

  lemma ConnectivesHaveNoSpace()
    ensures forall w :: w in Connectives ==> NoSpace(w)
  {
    forall w | w in Connectives ensures NoSpace(w) {
      assert Plain(w);
      PlainNoSpace(w);
    }
  }

  lemma VerbsHaveNoSpace()
    ensures forall w :: w in Verbs ==> NoSpace(w)
  {
    forall w | w in Verbs ensures NoSpace(w) {
      assert Plain(w);
      PlainNoSpace(w);
    }
  }

  /** Nouns hold no whitespace, alone or plural. */
  lemma NounsHaveNoSpace()
    ensures forall w :: w in Nouns ==> NoSpace(w) && NoSpace(w + "s")
  {
    forall w | w in Nouns ensures NoSpace(w) && NoSpace(w + "s") {
      assert Plain(w);
      PlainNoSpace(w);
    }
  }

  /** Two whitespace-free words that both begin `t` and are both followed by
      whitespace are the same word, so an alternation of such words can
      match in one way only. */
  lemma BeforeSpaceUnique(t: string, u: string, v: string)
    requires NoSpace(u) && NoSpace(v)
    requires StartsWith(t, u) && |u| < |t| && IsSpace(t[|u|])
    requires StartsWith(t, v) && |v| < |t| && IsSpace(t[|v|])
    ensures u == v
  {
  }

  /** Whenever one of the words begins `t` and is followed by whitespace,
      the alternation picks exactly that word. */
  lemma FirstWordIs(t: string, words: seq<string>, w: string)
    requires forall u :: u in words ==> NoSpace(u)
    requires w in words && StartsWith(t, w) && |w| < |t| && IsSpace(t[|w|])
    ensures FirstWordBeforeSpace(t, words) == Some(w)
  {
    FirstWordSpec(t, words);
    var r := FirstWordBeforeSpace(t, words);
    var k :| 0 <= k < |words| && words[k] == w;
    BeforeSpaceUnique(t, r.value, w);
  }

  /** The whitespace run from `i` ends at the first non-whitespace character. */
  lemma {:induction false} RunEndAt(s: string, i: nat, j: nat)
    requires i <= j <= |s|
    requires forall k :: i <= k < j ==> IsSpace(s[k])
    requires j == |s| || !IsSpace(s[j])
    ensures RunEnd(s, i) == j
    decreases j - i
  {
    if i < j {
      RunEndAt(s, i + 1, j);
    }
  }

  /** A match starts at `i` and ends at `e` exactly when the text between is
      whitespace, a connective and whitespace, and no whitespace follows it:
      both `\s+` take their whole run. */
  lemma SeparatorAtIff(s: string, i: nat, e: nat)
    requires i <= e <= |s|
    ensures SeparatorAt(s, i) == Some(e)
      <==> IsSeparatorText(s[i..e]) && (e == |s| || !IsSpace(s[e]))
  {
    if SeparatorAt(s, i) == Some(e) {
      SeparatorTextAt(s, i);
      SeparatorAtEnd(s, i);
    }
    if IsSeparatorText(s[i..e]) && (e == |s| || !IsSpace(s[e])) {
      SeparatorAtFinds(s, i, e);
    }
  }

  lemma SeparatorAtFinds(s: string, i: nat, e: nat)
    requires i <= e <= |s|
    requires IsSeparatorText(s[i..e]) && (e == |s| || !IsSpace(s[e]))
    ensures SeparatorAt(s, i) == Some(e)
  {
    var a, b := SeparatorTextShift(s, i, e);
    SeparatorAtParts(s, i, a, b, e);
  }

  /** The parts of a separator text, as positions in the whole text. */
  lemma SeparatorTextShift(s: string, i: nat, e: nat) returns (a: nat, b: nat)
    requires i <= e <= |s| && IsSeparatorText(s[i..e])
    ensures i < a < b < e && s[a..b] in Connectives
    ensures forall k :: i <= k < a ==> IsSpace(s[k])
    ensures forall k :: b <= k < e ==> IsSpace(s[k])
  {
    var t := s[i..e];
    var x, y :| 0 < x < y < |t| && t[x..y] in Connectives
      && (forall k :: 0 <= k < x ==> IsSpace(t[k]))
      && (forall k :: y <= k < |t| ==> IsSpace(t[k]));
    a, b := i + x, i + y;
    forall k | i <= k < a ensures IsSpace(s[k]) {
      assert s[k] == t[k - i];
    }
    forall k | b <= k < e ensures IsSpace(s[k]) {
      assert s[k] == t[k - i];
    }
    SliceOfSliceAt(s, i, e, x, y);
  }

  /** A word that begins the text from `e` is the slice at `e`. */
  lemma PrefixAt(s: string, e: nat, w: string)
    requires e <= |s| && StartsWith(s[e..], w)
    ensures e + |w| <= |s| && s[e..e + |w|] == w
  {
    assert s[e..][..|w|] == s[e..e + |w|];
  }

  /** A slice of a slice is a slice of the whole. */
  lemma SliceOfSliceAt(s: string, i: nat, e: nat, x: nat, y: nat)
    requires i <= e <= |s| && x <= y <= e - i
    ensures s[i..e][x..y] == s[i + x..i + y]
  {
    forall k | 0 <= k < y - x ensures s[i..e][x..y][k] == s[i + x..i + y][k] {
      assert s[i..e][x + k] == s[i + x + k];
    }
  }

  /** The same, with the connective at `s[a..b]`. */
  lemma SeparatorAtParts(s: string, i: nat, a: nat, b: nat, e: nat)
    requires i < a < b < e <= |s|
    requires s[a..b] in Connectives
    requires forall k :: i <= k < a ==> IsSpace(s[k])
    requires forall k :: b <= k < e ==> IsSpace(s[k])
    requires e == |s| || !IsSpace(s[e])
    ensures SeparatorAt(s, i) == Some(e)
  {
    var c := s[a..b];
    ConnectivesHaveNoSpace();
    assert NoSpace(c) && s[a] == c[0];
    RunEndAt(s, i, a);
    var u := s[a..];
    assert |c| == b - a;
    assert u[..|c|] == c;
    assert u[|c|] == s[b];
    FirstWordIs(u, Connectives, c);
    RunEndAt(s, b, e);
  }

  /** No whitespace follows a match. */
  lemma SeparatorAtEnd(s: string, i: nat)
    requires i <= |s| && SeparatorAt(s, i).Some?
    ensures var e := SeparatorAt(s, i).value; e == |s| || !IsSpace(s[e])
  {
    var e := RunEnd(s, i);
    var w := FirstWordBeforeSpace(s[e..], Connectives).value;
    RunEndSpec(s, e + |w|);
  }

  /** Every piece after a separator is empty or starts with non-whitespace:
      the second `\s+` of the separator takes the whole run. */
  ghost predicate PiecesStartTrimmed(parts: seq<string>) {
    forall k :: 1 <= k < |parts| ==> parts[k] == [] || !IsSpace(parts[k][0])
  }

  /** The first piece is a prefix of the text scanned from `start`. */
  lemma {:induction false} FirstPiece(s: string, start: nat, i: nat)
    requires start <= i <= |s|
    ensures var p := SplitFrom(s, start, i).parts[0];
      start + |p| <= |s| && p == s[start..start + |p|]
    decreases |s| - i
  {
    if i < |s| {
      if SeparatorAt(s, i).Some? {
        var e := SplitFromCut(s, start, i);
      } else {
        SplitFromSkip(s, start, i);
        FirstPiece(s, start, i + 1);
      }
    }
  }

  lemma {:induction false} SplitPiecesStart(s: string, start: nat, i: nat)
    requires start <= i <= |s|
    ensures PiecesStartTrimmed(SplitFrom(s, start, i).parts)
    decreases |s| - i, 1
  {
    if i < |s| {
      if SeparatorAt(s, i).Some? {
        SplitPiecesStartCut(s, start, i);
      } else {
        SplitFromSkip(s, start, i);
        SplitPiecesStart(s, start, i + 1);
      }
    }
  }

  lemma {:induction false} SplitPiecesStartCut(s: string, start: nat, i: nat)
    requires start <= i < |s| && SeparatorAt(s, i).Some?
    ensures PiecesStartTrimmed(SplitFrom(s, start, i).parts)
    decreases |s| - i, 0
  {
    var e := SplitFromCut(s, start, i);
    SplitPiecesStart(s, e, e);
    FirstPiece(s, e, e);
    SeparatorAtEnd(s, i);
    PiecesStartCons(s[start..i], SplitFrom(s, e, e).parts, s, e);
  }

  lemma PiecesStartCons(x: string, rest: seq<string>, s: string, e: nat)
    requires rest != [] && PiecesStartTrimmed(rest)
    requires e + |rest[0]| <= |s| && rest[0] == s[e..e + |rest[0]|]
    requires e == |s| || !IsSpace(s[e])
    ensures PiecesStartTrimmed([x] + rest)
  {
    var parts := [x] + rest;
    forall k | 1 <= k < |parts| ensures parts[k] == [] || !IsSpace(parts[k][0]) {
      assert parts[k] == rest[k - 1];
      if k == 1 && rest[0] != [] {
        assert rest[0][0] == s[e];
      }
    }
  }

  /** The pieces of the whole text after the first start with non-whitespace. */
  lemma SplitPiecesTrimmed(s: string)
    ensures PiecesStartTrimmed(Split(s).parts)
  {
    SplitPiecesStart(s, 0, 0);
  }

  /** A text with no match anywhere is returned whole. */
  lemma {:induction false} NoSeparatorNoSplit(s: string, start: nat, i: nat)
    requires start <= i <= |s|
    requires forall k :: i <= k <= |s| ==> SeparatorAt(s, k).None?
    ensures SplitFrom(s, start, i).parts == [s[start..]]
    decreases |s| - i
  {
    if i < |s| {
      NoSeparatorNoSplit(s, start, i + 1);
    }
  }

  /** No match starts anywhere in `[a, b)`. */
  ghost predicate NoMatchIn(s: string, a: nat, b: nat) {
    forall k :: a <= k < b && k <= |s| ==> SeparatorAt(s, k).None?
  }

  /** No match starts inside a piece: the piece at offset `o` and every
      piece after it (each following its separator) are free of match starts,
      so every cut is at the leftmost match. */
  ghost predicate MatchFree(s: string, o: nat, parts: seq<string>, seps: seq<string>)
    requires |parts| == |seps| + 1
    decreases |seps|
  {
    && o + |parts[0]| <= |s|
    && NoMatchIn(s, o, o + |parts[0]|)
    && (seps != [] ==> MatchFree(s, o + |parts[0]| + |seps[0]|, parts[1..], seps[1..]))
  }

  /** `re.split` cuts at the leftmost match each time: no separator match
      starts anywhere inside a piece. */
  lemma {:induction false} SplitLeftmost(s: string, start: nat, i: nat)
    requires start <= i <= |s|
    requires NoMatchIn(s, start, i)
    ensures MatchFree(s, start, SplitFrom(s, start, i).parts, SplitFrom(s, start, i).seps)
    decreases |s| - i, 1
  {
    if i == |s| {
      SplitLeftmostEnd(s, start);
    } else if SeparatorAt(s, i).Some? {
      SplitLeftmostCut(s, start, i);
    } else {
      SplitLeftmostSkip(s, start, i);
    }
  }

  lemma {:induction false} SplitLeftmostCut(s: string, start: nat, i: nat)
    requires start <= i < |s| && SeparatorAt(s, i).Some?
    requires NoMatchIn(s, start, i)
    ensures MatchFree(s, start, SplitFrom(s, start, i).parts, SplitFrom(s, start, i).seps)
    decreases |s| - i, 0
  {
    var e := SplitFromCut(s, start, i);
    SplitLeftmost(s, e, e);
    var rest := SplitFrom(s, e, e);
    MatchFreeCons(s, start, s[start..i], s[i..e], rest.parts, rest.seps);
  }


  lemma {:induction false} SplitLeftmostSkip(s: string, start: nat, i: nat)
    requires start <= i < |s| && SeparatorAt(s, i).None?
    requires NoMatchIn(s, start, i)
    ensures MatchFree(s, start, SplitFrom(s, start, i).parts, SplitFrom(s, start, i).seps)
    decreases |s| - i, 0
  {
    NoMatchExtend(s, start, i);
    SplitFromSkip(s, start, i);
    SplitLeftmost(s, start, i + 1);
  }

  lemma NoMatchExtend(s: string, start: nat, i: nat)
    requires start <= i < |s| && SeparatorAt(s, i).None?
    requires NoMatchIn(s, start, i)
    ensures NoMatchIn(s, start, i + 1)
  {
  }
  lemma SplitLeftmostEnd(s: string, start: nat)
    requires start <= |s|
    requires NoMatchIn(s, start, |s|)
    ensures MatchFree(s, start, SplitFrom(s, start, |s|).parts, SplitFrom(s, start, |s|).seps)
  {
    assert SplitFrom(s, start, |s|) == Pieces([s[start..]], []);
    MatchFreeLast(s, start);
  }

  /** Where a match starts at `i`, the piece ends there and splitting
      resumes where the match ends. */
  lemma SplitFromCut(s: string, start: nat, i: nat) returns (e: nat)
    requires start <= i < |s| && SeparatorAt(s, i).Some?
    ensures e == SeparatorAt(s, i).value && i < e <= |s|
    ensures SplitFrom(s, start, i)
      == Pieces([s[start..i]] + SplitFrom(s, e, e).parts, [s[i..e]] + SplitFrom(s, e, e).seps)
  {
    e := SeparatorAt(s, i).value;
  }

  /** Where no match starts at `i`, the scan moves on. */
  lemma SplitFromSkip(s: string, start: nat, i: nat)
    requires start <= i < |s| && SeparatorAt(s, i).None?
    ensures SplitFrom(s, start, i) == SplitFrom(s, start, i + 1)
  {
  }

  lemma MatchFreeLast(s: string, start: nat)
    requires start <= |s|
    requires NoMatchIn(s, start, |s|)
    ensures MatchFree(s, start, [s[start..]], [])
  {
  }

  lemma MatchFreeCons(s: string, o: nat, x: string, y: string, parts: seq<string>, seps: seq<string>)
    requires o + |x| <= |s| && |parts| == |seps| + 1
    requires NoMatchIn(s, o, o + |x|)
    requires MatchFree(s, o + |x| + |y|, parts, seps)
    ensures MatchFree(s, o, [x] + parts, [y] + seps)
  {
    assert ([x] + parts)[1..] == parts && ([y] + seps)[1..] == seps;
  }

  /** The whole split, from the start of the text. */
  lemma SplitIsLeftmost(s: string)
    ensures MatchFree(s, 0, Split(s).parts, Split(s).seps)
  {
    SplitLeftmost(s, 0, 0);
  }

  /** `re.sub(r'^(add|create|build|implement|write)\s+', '', part)`. */
  function StripVerb(p: string): (r: string)
    ensures |r| <= |p| && r == p[|p| - |r|..]
    ensures r == [] || !IsSpace(r[0]) || r == p
  {
    match FirstWordBeforeSpace(p, Verbs)
    case Some(w) => TrimLeft(p[|w|..])
    case None => p
  }

  /** `p` ends with the non-empty `e`, and whitespace comes right before it. */
  predicate EndsAfterSpace(p: string, e: string) {
    0 < |e| < |p| && EndsWith(p, e) && IsSpace(p[|p| - |e| - 1])
  }

  /** The length of the `noun` or `nouns` ending of `p` when whitespace comes
      before it (the optional `s` is greedy, so the plural is tried first). */
  function NounEnding(p: string, nouns: seq<string>): (r: Option<nat>)
    ensures r.Some? ==> 0 < r.value < |p| && IsSpace(p[|p| - r.value - 1])
    decreases |nouns|
  {
    if nouns == [] then None
    else
      var w := nouns[0];
      if EndsAfterSpace(p, w + "s") then Some(|w| + 1)
      else if EndsAfterSpace(p, w) then Some(|w|)
      else NounEnding(p, nouns[1..])
  }

  /** `re.sub(r'\s+(feature|component|module|endpoint|page)s?$', '', part)`:
      the noun goes together with the whole whitespace run before it. */
  function StripNoun(p: string): (r: string)
    ensures |r| <= |p| && r == p[..|r|]
    ensures r == [] || !IsSpace(r[|r| - 1]) || r == p
  {
    match NounEnding(p, Nouns)
    case Some(n) => TrimRight(p[..|p| - n])
    case None => p
  }

  /** A leading verb and the whole whitespace run after it are removed. */
  lemma StripVerbRemoves(p: string, w: string, ws: string, q: string)
    requires w in Verbs && ws != [] && AllSpace(ws)
    requires q == [] || !IsSpace(q[0])
    requires p == w + ws + q
    ensures StripVerb(p) == q
  {
    VerbsHaveNoSpace();
    WordRemoves(p, Verbs, w, ws, q);
  }

  /** The same for any list of whitespace-free words. */
  lemma WordRemoves(p: string, words: seq<string>, w: string, ws: string, q: string)
    requires forall u :: u in words ==> NoSpace(u)
    requires w in words && ws != [] && AllSpace(ws)
    requires q == [] || !IsSpace(q[0])
    requires p == w + ws + q
    ensures FirstWordBeforeSpace(p, words) == Some(w)
    ensures TrimLeft(p[|w|..]) == q
  {
    WordThenRun(p, w, ws, q);
    FirstWordIs(p, words, w);
    TrimLeftRun(ws, q);
  }

  lemma WordThenRun(p: string, w: string, ws: string, q: string)
    requires ws != [] && p == w + ws + q
    ensures StartsWith(p, w) && |w| < |p| && p[|w|] == ws[0] && p[|w|..] == ws + q
  {
    assert p[..|w|] == w;
  }

  /** A piece that does not begin with a verb followed by whitespace is kept. */
  lemma StripVerbKeeps(p: string)
    requires forall w :: w in Verbs ==> !(StartsWith(p, w) && |w| < |p| && IsSpace(p[|w|]))
    ensures StripVerb(p) == p
  {
    FirstWordSpec(p, Verbs);
  }

  /** `e` is one of `words`, or one of them followed by the plural `s`. */
  ghost predicate IsEndingOf(e: string, words: seq<string>) {
    exists w :: w in words && (e == w || e == w + "s")
  }

  /** `e` is a noun, or a noun followed by the plural `s`. */
  ghost predicate IsNounEnding(e: string) {
    IsEndingOf(e, Nouns)
  }

  /** Some noun of `nouns` ends `p` right after a whitespace character, so
      the search of `nouns` finds an ending. */
  lemma {:induction false} NounEndingFinds(p: string, nouns: seq<string>, w: string, t: string)
    requires w in nouns && w != [] && (t == "" || t == "s")
    requires EndsAfterSpace(p, w + t)
    ensures NounEnding(p, nouns).Some?
    decreases |nouns|
  {
    if nouns[0] != w {
      var k :| 0 <= k < |nouns| && nouns[k] == w;
      assert nouns[1..][k - 1] == w;
      NounEndingFinds(p, nouns[1..], w, t);
    } else if t == "" {
      assert w + t == w;
    }
  }

  /** What the search finds is a noun `w` of `nouns`, alone or plural. */
  lemma {:induction false} NounEndingHit(p: string, nouns: seq<string>) returns (w: string)
    requires NounEnding(p, nouns).Some?
    ensures w in nouns
    ensures var n := NounEnding(p, nouns).value;
      (n == |w| + 1 && EndsWith(p, w + "s")) || (n == |w| && EndsWith(p, w))
    decreases |nouns|
  {
    w := nouns[0];
    if !EndsAfterSpace(p, w + "s") && !EndsAfterSpace(p, w) {
      w := NounEndingHit(p, nouns[1..]);
      assert nouns == [nouns[0]] + nouns[1..];
    }
  }

  /** Two whitespace-free endings of `p` that each follow whitespace are the
      same length. */
  lemma EndingUnique(p: string, m: nat, n: nat)
    requires 0 < m < |p| && 0 < n < |p|
    requires IsSpace(p[|p| - m - 1]) && IsSpace(p[|p| - n - 1])
    requires NoSpace(p[|p| - m..]) && NoSpace(p[|p| - n..])
    ensures m == n
  {
  }

  /** A piece ending in whitespace then a noun, plural or not, has that noun
      ending found, with the plural `s` counted when present. */
  lemma NounEndingOf(p: string, q: string, ws: string, w: string, t: string)
    requires w in Nouns && (t == "" || t == "s")
    requires ws != [] && AllSpace(ws)
    requires p == q + ws + w + t
    ensures NounEnding(p, Nouns) == Some(|w + t|)
  {
    NounsHaveNoSpace();
    assert w != [] by { assert w in Nouns; }
    assert p == (q + ws) + (w + t);
    EndsAfterRun(q + ws, w + t);
    EndingIs(p, Nouns, w, t);
  }

  /** A text ending in whitespace, followed by a non-empty `e`. */
  lemma EndsAfterRun(x: string, e: string)
    requires x != [] && IsSpace(x[|x| - 1]) && e != []
    ensures EndsAfterSpace(x + e, e)
  {
    assert (x + e)[|x + e| - |e|..] == e;
    assert (x + e)[|x + e| - |e| - 1] == x[|x| - 1];
  }

  /** With whitespace-free words, the ending found is the one that is there. */
  lemma EndingIs(p: string, nouns: seq<string>, w: string, t: string)
    requires forall u :: u in nouns ==> NoSpace(u) && NoSpace(u + "s")
    requires w in nouns && w != [] && (t == "" || t == "s")
    requires EndsAfterSpace(p, w + t)
    ensures NounEnding(p, nouns) == Some(|w + t|)
  {
    NounEndingFinds(p, nouns, w, t);
    var v := NounEndingHit(p, nouns);
    var n := NounEnding(p, nouns).value;
    assert NoSpace(p[|p| - n..]) by {
      assert p[|p| - n..] == v || p[|p| - n..] == v + "s";
    }
    assert NoSpace(p[|p| - |w + t|..]) by {
      assert p[|p| - |w + t|..] == w + t;
      if t == "" {
        assert w + t == w;
      }
    }
    EndingUnique(p, n, |w + t|);
  }

  /** Whatever ending is found is whitespace followed by a noun, plural or not. */
  lemma NounEndingSound(p: string)
    requires NounEnding(p, Nouns).Some?
    ensures var i := |p| - NounEnding(p, Nouns).value;
      0 < i < |p| && IsSpace(p[i - 1]) && IsNounEnding(p[i..])
  {
    EndingFound(p, Nouns);
  }

  lemma EndingFound(p: string, nouns: seq<string>)
    requires NounEnding(p, nouns).Some?
    ensures var i := |p| - NounEnding(p, nouns).value;
      0 < i < |p| && IsSpace(p[i - 1]) && IsEndingOf(p[i..], nouns)
  {
    var w := NounEndingHit(p, nouns);
    var i := |p| - NounEnding(p, nouns).value;
    assert p[i..] == w || p[i..] == w + "s";
  }

  /** A trailing noun, plural or not, and the whole whitespace run before it
      are removed. */
  lemma StripNounRemoves(p: string, q: string, ws: string, w: string, t: string)
    requires w in Nouns && (t == "" || t == "s")
    requires ws != [] && AllSpace(ws)
    requires q == [] || !IsSpace(q[|q| - 1])
    requires p == q + ws + w + t
    ensures StripNoun(p) == q
  {
    NounEndingOf(p, q, ws, w, t);
    var body := q + ws;
    assert p == body + (w + t);
    assert p[..|body|] == body;
    assert StripNoun(p) == TrimRight(p[..|body|]);
    TrimRightRun(q, ws);
  }

  /** A piece that does not end in whitespace followed by a noun is kept. */
  lemma StripNounKeeps(p: string)
    requires forall i :: 0 < i < |p| && IsSpace(p[i - 1]) ==> !IsNounEnding(p[i..])
    ensures StripNoun(p) == p
  {
    if NounEnding(p, Nouns).Some? {
      NounEndingSound(p);
    }
  }

  /** One piece after clean-up. */
  function Clean(part: string): string {
    StripNoun(StripVerb(Strip(part)))
  }

  /** A cleaned piece is kept when it has more than two characters. */
  predicate Kept(c: string) {
    |c| > 2
  }

  /** The cleaned pieces that are kept, in order. */
  function KeptPieces(parts: seq<string>): seq<string>
    decreases |parts|
  {
    if parts == [] then []
    else
      var c := Clean(parts[|parts| - 1]);
      KeptPieces(parts[..|parts| - 1]) + (if Kept(c) then [c] else [])
  }

  function Components(task: string): seq<string> {
    KeptPieces(Split(Lower(task)).parts)
  }

  /** `extract_components`: split, then clean up and filter piece by piece. */
  method ExtractComponents(task: string) returns (components: seq<string>)
    ensures components == Components(task)
  {
    var parts := Split(Lower(task)).parts;
    components := [];
    for k := 0 to |parts|
      invariant components == KeptPieces(parts[..k])
    {
      KeptPiecesSnoc(parts, k);
      var part := Clean(parts[k]);
      if Kept(part) {
        components := components + [part];
      }
    }
    assert parts[..|parts|] == parts;
  }

  lemma KeptPiecesSnoc(parts: seq<string>, k: nat)
    requires k < |parts|
    ensures var c := Clean(parts[k]);
      KeptPieces(parts[..k + 1]) == KeptPieces(parts[..k]) + (if Kept(c) then [c] else [])
  {
    assert parts[..k + 1][..k] == parts[..k];
  }

  ghost predicate AllSlicesOf(parts: seq<string>, s: string) {
    forall k :: 0 <= k < |parts| ==> IsSliceOf(parts[k], s)
  }

  lemma AllSlicesCons(t: string, parts: seq<string>, s: string)
    requires IsSliceOf(t, s) && AllSlicesOf(parts, s)
    ensures AllSlicesOf([t] + parts, s)
  {
    forall k | 0 <= k < |[t] + parts| ensures IsSliceOf(([t] + parts)[k], s) {
      if k > 0 {
        assert ([t] + parts)[k] == parts[k - 1];
      }
    }
  }

  /** Each piece of a split is a slice of the text. */
  lemma {:induction false} PartsAreSlices(s: string, start: nat, i: nat)
    requires start <= i <= |s|
    ensures AllSlicesOf(SplitFrom(s, start, i).parts, s)
    decreases |s| - i
  {
    if i == |s| {
      SliceIsSlice(s, start, |s|);
      assert s[start..] == s[start..|s|];
    } else {
      match SeparatorAt(s, i)
      case Some(e) =>
        PartsAreSlices(s, e, e);
        SliceIsSlice(s, start, i);
        AllSlicesCons(s[start..i], SplitFrom(s, e, e).parts, s);
      case None =>
        PartsAreSlices(s, start, i + 1);
    }
  }

  /** No whitespace at either end. */
  predicate Stripped(c: string) {
    c == [] || (!IsSpace(c[0]) && !IsSpace(c[|c| - 1]))
  }

  /** No upper-case ASCII letter. */
  predicate NoUpper(c: string) {
    forall k :: 0 <= k < |c| ==> !('A' <= c[k] <= 'Z')
  }

  lemma SliceNoUpper(t: string, s: string)
    requires IsSliceOf(t, s) && NoUpper(s)
    ensures NoUpper(t)
  {
    var a, b :| 0 <= a <= b <= |s| && s[a..b] == t;
    assert forall k :: 0 <= k < |t| ==> t[k] == s[a + k];
  }

  lemma StripVerbIsSlice(p: string)
    ensures IsSliceOf(StripVerb(p), p)
  {
    var r := StripVerb(p);
    SliceIsSlice(p, |p| - |r|, |p|);
    assert p[|p| - |r|..|p|] == r;
  }

  lemma StripNounIsSlice(p: string)
    ensures IsSliceOf(StripNoun(p), p)
  {
    var r := StripNoun(p);
    SliceIsSlice(p, 0, |r|);
    assert p[0..|r|] == r;
  }

  /** A cleaned piece is a slice of the piece. */
  lemma CleanIsSlice(part: string)
    ensures IsSliceOf(Clean(part), part)
  {
    var a := Strip(part);
    var b := StripVerb(a);
    StripVerbIsSlice(a);
    StripNounIsSlice(b);
    SliceOfSlice(b, a, part);
    SliceOfSlice(StripNoun(b), b, part);
  }

  /** A cleaned piece has no whitespace at either end. */
  lemma CleanIsStripped(part: string)
    ensures Stripped(Clean(part))
  {
    var a := Strip(part);
    var b := StripVerb(a);
    var c := StripNoun(b);
    if c != [] {
      assert b != [] && b[0] == c[0];
      assert b[|b| - 1] == a[|a| - 1];
      assert !IsSpace(b[0]);
    }
  }

  /** Every component is a stripped slice of the lower-cased task, longer
      than two characters, with no upper-case ASCII letter in it. */
  lemma ComponentsShape(task: string)
    ensures forall c :: c in Components(task) ==>
      Kept(c) && Stripped(c) && IsSliceOf(c, Lower(task)) && NoUpper(c)
  {
    var s := Lower(task);
    var parts := Split(s).parts;
    PartsAreSlices(s, 0, 0);
    assert NoUpper(s);
    KeptPiecesShape(s, parts);
  }

  lemma {:induction false} KeptPiecesShape(s: string, parts: seq<string>)
    requires AllSlicesOf(parts, s)
    requires NoUpper(s)
    ensures forall c :: c in KeptPieces(parts) ==> Kept(c) && Stripped(c) && IsSliceOf(c, s) && NoUpper(c)
    decreases |parts|
  {
    if parts != [] {
      var init := parts[..|parts| - 1];
      var last := parts[|parts| - 1];
      KeptPiecesShape(s, init);
      var c := Clean(last);
      CleanIsSlice(last);
      CleanIsStripped(last);
      SliceOfSlice(c, last, s);
      SliceNoUpper(c, s);
    }
  }
}
