/**
 * The subtask record the decomposer produces, its `task-NNN` identifiers and
 * the size estimate it attaches to a description.
 */
module Subtasks {
  import opened Strings
  import opened Numerals

  /** `estimated_size`: one of "S", "M", "L". */
  datatype Size = S | M | L

  datatype Subtask = Subtask(
    id: string,
    description: string,
    dependencies: seq<string>,
    estimatedSize: Size,
    parallelSafe: bool)

  /** `f"task-{n:03d}"`. */
  function TaskId(n: nat): (r: string)
    ensures |r| >= 8 && r[..5] == "task-"
  {
    "task-" + ZeroPad(Decimal(n), 3)
  }

  /** After the prefix come only digits: n written in decimal, zero-padded to
      three places, so reading them back gives n. */
  lemma TaskIdDigits(n: nat)
    ensures var r := TaskId(n);
      && (forall i :: 5 <= i < |r| ==> '0' <= r[i] <= '9')
      && ParseDecimal(r[5..]) == n
  {
    var d := Decimal(n);
    var p := ZeroPad(d, 3);
    PaddedDecimalRoundTrip(n, 3);
    ZeroPadZeros(d, 3);
    assert TaskId(n)[5..] == p;
  }

  /** Distinct numbers give distinct identifiers (also past 999, where the
      number simply takes more than three digits). */
  lemma TaskIdInjective(m: nat, n: nat)
    requires TaskId(m) == TaskId(n)
    ensures m == n
  {
    TaskIdDigits(m);
    TaskIdDigits(n);
  }

  lemma FirstTaskId()
    ensures TaskId(1) == "task-001"
  {
    assert Decimal(1) == "1";
    assert ZeroPad("1", 3) == ZeroPad("01", 3) == "001";
  }

  /** The words that mark a large task, then those that mark a small one. */
  const LargeWords: seq<string> := ["full", "complete", "entire", "all", "comprehensive"]
  const SmallWords: seq<string> := ["simple", "basic", "small", "quick", "minor", "fix"]

  /** `any(word in d for word in words)`. */
  predicate MentionsAny(d: string, words: seq<string>) {
    exists k :: 0 <= k < |words| && Contains(d, words[k])
  }

  /** `estimate_size`: a large word wins over a small one; neither gives M. */
  function EstimateSize(description: string): Size {
    var d := Lower(description);
    if MentionsAny(d, LargeWords) then L
    else if MentionsAny(d, SmallWords) then S
    else M
  }

  /** The three outcomes, each exactly when its rule is the first to match. */
  lemma EstimateSizeRules(description: string)
    ensures var d := Lower(description);
      && (EstimateSize(description) == L <==> MentionsAny(d, LargeWords))
      && (EstimateSize(description) == S <==> !MentionsAny(d, LargeWords) && MentionsAny(d, SmallWords))
      && (EstimateSize(description) == M <==> !MentionsAny(d, LargeWords) && !MentionsAny(d, SmallWords))
  {
  }

  /** The small indicator "small" can never give S: every text that contains
      it contains "all", a large indicator. */
  lemma SmallIsLarge(description: string)
    requires Contains(Lower(description), "small")
    ensures EstimateSize(description) == L
  {
    var d := Lower(description);
    ContainsIsSlice(d, "small");
    assert "small"[2..5] == "all";
    SliceIsSlice("small", 2, 5);
    SliceOfSlice("all", "small", d);
    ContainsSlice(d, "all");
    assert LargeWords[3] == "all";
  }
}
