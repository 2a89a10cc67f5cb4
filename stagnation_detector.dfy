/**
 * Stagnation classification over a worker's fingerprint history (oldest
 * first). The rules are tried in a fixed order and the first that matches
 * decides: too short a history, the same fingerprint `threshold` times in a
 * row, a repeated window of length 2..maxCycleLength (shortest first), a
 * two-value alternation over the last five entries, and otherwise nothing.
 */
module StagnationDetector {
  import opened Wrappers
  import opened PySlice
  import Numerals

  type Fingerprint = string

  datatype Verdict =
    | InsufficientHistory
    | ImmediateRepetition(repeated: Fingerprint, count: int)
    | Cycle(cycleLength: nat, window: seq<Fingerprint>)
    | Oscillation(values: seq<Fingerprint>)
    | NoPatternDetected
  {
    /** The `stagnant` field of the result. */
    predicate Stagnant() {
      !InsufficientHistory? && !NoPatternDetected?
    }

    /** `reason` of a non-stagnant result, `pattern_type` of a stagnant one. */
    function Label(): string {
      match this
      case InsufficientHistory => "insufficient_history"
      case ImmediateRepetition(_, _) => "immediate_repetition"
      case Cycle(l, _) => "cycle_" + Numerals.Decimal(l)
      case Oscillation(_) => "oscillation"
      case NoPatternDetected => "no_pattern_detected"
    }

    /** The `count` field of a stagnant result. */
    function Count(): int
      requires Stagnant()
    {
      match this
      case ImmediateRepetition(_, c) => c
      case Cycle(_, _) => 2
      case Oscillation(_) => 5
    }
  }

  /** `len(set(s)) == 1`: s is non-empty and holds one value only. */
  predicate SingleValue(s: seq<Fingerprint>) {
    |s| > 0 && forall i :: 0 <= i < |s| ==> s[i] == s[0]
  }

  /** From position i on, up to the last L entries, each entry equals the one
      L places later. */
  predicate AgreeFrom(h: seq<Fingerprint>, l: nat, i: nat)
    requires i + l <= |h|
    decreases |h| - l - i
  {
    i == |h| - l || (h[i] == h[i + l] && AgreeFrom(h, l, i + 1))
  }

  /** The last 2L entries consist of the same L entries twice. */
  predicate RepeatsWithPeriod(h: seq<Fingerprint>, l: nat)
    requires 2 * l <= |h|
  {
    AgreeFrom(h, l, |h| - 2 * l)
  }

  lemma {:induction false} AgreeFromSlices(h: seq<Fingerprint>, l: nat, i: nat)
    requires i + l <= |h|
    ensures AgreeFrom(h, l, i) <==> h[i..|h| - l] == h[i + l..]
    decreases |h| - l - i
  {
    if i < |h| - l {
      AgreeFromSlices(h, l, i + 1);
      var a, b := h[i..|h| - l], h[i + l..];
      assert a == [h[i]] + h[i + 1..|h| - l];
      assert b == [h[i + l]] + h[i + 1 + l..];
      if a == b {
        assert a[0] == b[0] && a[1..] == b[1..];
      }
    }
  }

  /** The period test in terms of the two halves the detector compares. */
  lemma PeriodHalves(h: seq<Fingerprint>, l: nat)
    requires 2 * l <= |h|
    ensures RepeatsWithPeriod(h, l) <==> h[|h| - 2 * l..|h| - l] == h[|h| - l..]
  {
    AgreeFromSlices(h, l, |h| - 2 * l);
  }

  /** The longest cycle length tried: min(maxCycleLength, len(history) // 2). */
  function CycleLimit(h: seq<Fingerprint>, maxCycleLength: int): (r: int)
    ensures 2 * r <= |h| && r <= maxCycleLength
  {
    if maxCycleLength < |h| / 2 then maxCycleLength else |h| / 2
  }

  /** The shortest period in [from, limit] with which the history ends, if any. */
  function FirstCycle(h: seq<Fingerprint>, from: nat, limit: int): (r: Option<nat>)
    requires 2 * limit <= |h|
    ensures r.Some? ==> from <= r.value <= limit
    decreases limit - from
  {
    if limit < from then None
    else if RepeatsWithPeriod(h, from) then Some(from)
    else FirstCycle(h, from + 1, limit)
  }

  /** The search finds the least period in range, and finds nothing only when
      no length in range is a period. */
  lemma {:induction false} FirstCycleIsLeast(h: seq<Fingerprint>, from: nat, limit: int)
    requires 2 * limit <= |h|
    ensures var r := FirstCycle(h, from, limit);
      && (r.Some? ==> from <= r.value <= limit && RepeatsWithPeriod(h, r.value))
      && (r.Some? ==> forall l: nat :: from <= l < r.value ==> !RepeatsWithPeriod(h, l))
      && (r.None? ==> forall l: nat :: from <= l <= limit ==> !RepeatsWithPeriod(h, l))
    decreases limit - from
  {
    if limit >= from && !RepeatsWithPeriod(h, from) {
      FirstCycleIsLeast(h, from + 1, limit);
    }
  }

  /** `list(dict.fromkeys(s))`: the distinct values in order of first appearance. */
  function Dedup(s: seq<Fingerprint>): seq<Fingerprint>
    decreases |s|
  {
    if s == [] then []
    else
      var d := Dedup(s[..|s| - 1]);
      if s[|s| - 1] in d then d else d + [s[|s| - 1]]
  }

  /** Every value once, nothing else, the first value first. */
  lemma {:induction false} DedupSpec(s: seq<Fingerprint>)
    ensures var r := Dedup(s);
      && (forall x :: x in r <==> x in s)
      && (forall i, j :: 0 <= i < j < |r| ==> r[i] != r[j])
      && (s != [] ==> r != [] && r[0] == s[0])
    decreases |s|
  {
    if s != [] {
      var init := s[..|s| - 1];
      DedupSpec(init);
      assert s == init + [s[|s| - 1]];
      if init != [] {
        assert init[0] == s[0];
      }
    }
  }

  function Reversed(s: seq<Fingerprint>): (r: seq<Fingerprint>)
    ensures |r| == |s|
    ensures forall i :: 0 <= i < |s| ==> r[i] == s[|s| - 1 - i]
  {
    if s == [] then [] else [s[|s| - 1]] + Reversed(s[..|s| - 1])
  }

  /** `[unique[i % 2] for i in range(5)]`. */
  function Alternation(u: seq<Fingerprint>): seq<Fingerprint>
    requires |u| == 2
  {
    [u[0], u[1], u[0], u[1], u[0]]
  }

  /** The oscillation test on the last five entries. */
  predicate Oscillates(last5: seq<Fingerprint>) {
    var u := Dedup(last5);
    |u| == 2 && (last5 == Alternation(u) || last5 == Reversed(Alternation(u)))
  }

  /** The classification, rule by rule in the order the detector applies them. */
  function Classify(h: seq<Fingerprint>, threshold: int, maxCycleLength: int): Verdict {
    if |h| < threshold then InsufficientHistory
    else
      var lastN := TakeLast(h, threshold);
      if SingleValue(lastN) then ImmediateRepetition(lastN[0], threshold)
      else CycleRule(h, maxCycleLength)
  }

  /** Rule 3, reached when neither of the first two rules matched. */
  function CycleRule(h: seq<Fingerprint>, maxCycleLength: int): Verdict {
    var found := CycleOf(h, FirstCycle(h, 2, CycleLimit(h, maxCycleLength)));
    if found.Some? then found.value else OscillationRule(h)
  }

  /** Rules 4 and 5, reached when no earlier rule matched. */
  function OscillationRule(h: seq<Fingerprint>): Verdict {
    if |h| >= 5 && Oscillates(TakeLast(h, 5)) then Oscillation(Dedup(TakeLast(h, 5)))
    else NoPatternDetected
  }

  /** The detector itself: rules 1 and 2 inline, then the cycle search loop,
      then the oscillation test. */
  method DetectStagnation(history: seq<Fingerprint>, threshold: int, maxCycleLength: int)
    returns (v: Verdict)
    ensures v == Classify(history, threshold, maxCycleLength)
  {
    if |history| < threshold {
      return InsufficientHistory;
    }
    var lastN := TakeLast(history, threshold);
    if SingleValue(lastN) {
      return ImmediateRepetition(lastN[0], threshold);
    }
    var cycle := SearchCycle(history, maxCycleLength);
    if cycle.Some? {
      return cycle.value;
    }
    v := CheckOscillation(history);
  }

  /** The loop over cycle lengths, returning at the first length whose two
      halves agree. */
  method SearchCycle(history: seq<Fingerprint>, maxCycleLength: int) returns (v: Option<Verdict>)
    ensures v == CycleOf(history, FirstCycle(history, 2, CycleLimit(history, maxCycleLength)))
  {
    // range(2, min(max_cycle_length + 1, len(history) // 2 + 1)); the source's
    // guard `len(history) < cycle_len * 2` can never hold inside this range.
    var stop := CycleLimit(history, maxCycleLength) + 1;
    var cycleLen := 2;
    while cycleLen < stop
      invariant 2 <= cycleLen
      invariant FirstCycle(history, 2, stop - 1) == FirstCycle(history, cycleLen, stop - 1)
      decreases stop - cycleLen
    {
      var agree, firstHalf := CompareHalves(history, cycleLen);
      if agree {
        FirstCycleAt(history, cycleLen, stop - 1);
        return Some(Cycle(cycleLen, firstHalf));
      }
      cycleLen := cycleLen + 1;
    }
    assert FirstCycle(history, 2, stop - 1) == None;
    return None;
  }

  /** One step of the search: the last 2L entries, split in halves and compared. */
  method CompareHalves(history: seq<Fingerprint>, cycleLen: nat) returns (agree: bool, firstHalf: seq<Fingerprint>)
    requires 1 <= cycleLen && 2 * cycleLen <= |history|
    ensures agree <==> RepeatsWithPeriod(history, cycleLen)
    ensures firstHalf == history[|history| - 2 * cycleLen..|history| - cycleLen]
  {
    var window := TakeLast(history, cycleLen * 2);
    firstHalf := window[..cycleLen];
    var secondHalf := window[cycleLen..];
    agree := firstHalf == secondHalf;
    WindowHalves(history, cycleLen, window);
  }

  /** The oscillation test and the final fall-through. */
  method CheckOscillation(history: seq<Fingerprint>) returns (v: Verdict)
    ensures v == OscillationRule(history)
  {
    if |history| >= 5 {
      var last5 := TakeLast(history, 5);
      var unique := Dedup(last5);
      if |unique| == 2 {
        var expected := Alternation(unique);
        if last5 == expected || last5 == Reversed(expected) {
          return Oscillation(unique);
        }
      }
    }
    return NoPatternDetected;
  }

  lemma FirstCycleAt(h: seq<Fingerprint>, from: nat, limit: int)
    requires from <= limit && 2 * limit <= |h| && RepeatsWithPeriod(h, from)
    ensures FirstCycle(h, from, limit) == Some(from)
  {
  }

  /** The verdict for the period found by the search, if any. */
  function CycleOf(h: seq<Fingerprint>, found: Option<nat>): (r: Option<Verdict>)
    requires found.Some? ==> 2 * found.value <= |h|
  {
    if found.Some? then Some(Cycle(found.value, h[|h| - 2 * found.value..|h| - found.value])) else None
  }

  /** The window the detector takes for length L, split in halves. */
  lemma WindowHalves(h: seq<Fingerprint>, l: nat, w: seq<Fingerprint>)
    requires 1 <= l && 2 * l <= |h| && w == TakeLast(h, 2 * l)
    ensures w[..l] == h[|h| - 2 * l..|h| - l]
    ensures w[..l] == w[l..] <==> RepeatsWithPeriod(h, l)
  {
    assert w == h[|h| - 2 * l..];
    assert w[l..] == h[|h| - l..];
    assert w[..l] == h[|h| - 2 * l..|h| - l];
    PeriodHalves(h, l);
  }

  /** Rule 1 decides exactly when the history is shorter than the threshold. */
  lemma InsufficientIffShort(h: seq<Fingerprint>, threshold: int, maxCycleLength: int)
    ensures Classify(h, threshold, maxCycleLength) == InsufficientHistory <==> |h| < threshold
    ensures Classify(h, threshold, maxCycleLength).Stagnant() ==> threshold <= |h|
  {
  }

  /** Rule 2 wins over every later rule: `threshold` equal entries at the end
      are reported as immediate repetition of that entry. */
  lemma RepetitionFirst(h: seq<Fingerprint>, threshold: int, maxCycleLength: int)
    requires 1 <= threshold <= |h|
    requires forall i :: |h| - threshold <= i < |h| ==> h[i] == h[|h| - 1]
    ensures Classify(h, threshold, maxCycleLength) == ImmediateRepetition(h[|h| - 1], threshold)
  {
    var lastN := TakeLast(h, threshold);
    assert forall i :: 0 <= i < |lastN| ==> lastN[i] == h[|h| - threshold + i];
  }

  /** An immediate-repetition verdict is only given for a run of `threshold` equal entries. */
  lemma RepetitionSound(h: seq<Fingerprint>, threshold: int, maxCycleLength: int, p: Fingerprint, c: int)
    requires threshold >= 1
    requires Classify(h, threshold, maxCycleLength) == ImmediateRepetition(p, c)
    ensures c == threshold <= |h| && p == h[|h| - 1]
    ensures forall i :: |h| - threshold <= i < |h| ==> h[i] == p
  {
    var lastN := TakeLast(h, threshold);
    assert forall i :: |h| - threshold <= i < |h| ==> h[i] == lastN[i - (|h| - threshold)];
  }

  /** A cycle verdict names the shortest period with which the history ends,
      within [2, min(maxCycleLength, |h| / 2)], and its window. */
  lemma CycleIsShortest(h: seq<Fingerprint>, threshold: int, maxCycleLength: int, l: nat, w: seq<Fingerprint>)
    requires Classify(h, threshold, maxCycleLength) == Cycle(l, w)
    ensures 2 <= l <= maxCycleLength && 2 * l <= |h|
    ensures w == h[|h| - 2 * l..|h| - l] == h[|h| - l..]
    ensures forall k: nat :: 2 <= k < l ==> !RepeatsWithPeriod(h, k)
    ensures threshold <= |h| && !SingleValue(TakeLast(h, threshold))
  {
    FirstCycleIsLeast(h, 2, CycleLimit(h, maxCycleLength));
    PeriodHalves(h, l);
  }

  /** Any period in range is found once rules 1 and 2 do not apply; the one
      reported is no longer than it. */
  lemma CycleFound(h: seq<Fingerprint>, threshold: int, maxCycleLength: int, l: nat)
    requires threshold <= |h| && !SingleValue(TakeLast(h, threshold))
    requires 2 <= l <= maxCycleLength && 2 * l <= |h|
    requires RepeatsWithPeriod(h, l)
    ensures Classify(h, threshold, maxCycleLength).Cycle?
    ensures Classify(h, threshold, maxCycleLength).cycleLength <= l
  {
    FirstCycleIsLeast(h, 2, CycleLimit(h, maxCycleLength));
  }

  /** Comparing with the reversed alternation adds nothing: a five-element
      alternation reads the same backwards. */
  lemma AlternationPalindrome(u: seq<Fingerprint>)
    requires |u| == 2
    ensures Reversed(Alternation(u)) == Alternation(u)
  {
  }

  /** An oscillation verdict means the last five entries alternate between two
      distinct values; and it can only be given when the cycle search does not
      try length 2, since such an ending always repeats with period 2. */
  lemma OscillationSound(h: seq<Fingerprint>, threshold: int, maxCycleLength: int, u: seq<Fingerprint>)
    requires Classify(h, threshold, maxCycleLength) == Oscillation(u)
    ensures |h| >= 5 && |u| == 2 && u[0] != u[1]
    ensures h[|h| - 5..] == [u[0], u[1], u[0], u[1], u[0]]
    ensures maxCycleLength < 2
  {
    var last5 := TakeLast(h, 5);
    assert |h| >= 5 && Oscillates(last5) && u == Dedup(last5);
    DedupSpec(last5);
    AlternationPalindrome(u);
    assert last5 == Alternation(u);
    assert last5 == h[|h| - 5..];
    if maxCycleLength >= 2 {
      assert h[|h| - 4] == u[1] && h[|h| - 3] == u[0] && h[|h| - 2] == u[1] && h[|h| - 1] == u[0];
      PeriodTwoEnding(h, maxCycleLength);
      assert false;
    }
  }

  lemma PeriodTwoEnding(h: seq<Fingerprint>, maxCycleLength: int)
    requires |h| >= 4 && h[|h| - 4] == h[|h| - 2] && h[|h| - 3] == h[|h| - 1]
    requires maxCycleLength >= 2
    ensures FirstCycle(h, 2, CycleLimit(h, maxCycleLength)) == Some(2)
  {
    var x, y := h[|h| - 4..|h| - 2], h[|h| - 2..];
    assert |x| == 2 == |y| && x[0] == y[0] && x[1] == y[1];
    assert RepeatsWithPeriod(h, 2);
  }

  /** No verdict: the history was long enough and no rule matched. */
  lemma NoPatternMeansNoRule(h: seq<Fingerprint>, threshold: int, maxCycleLength: int)
    requires Classify(h, threshold, maxCycleLength) == NoPatternDetected
    ensures threshold <= |h| && !SingleValue(TakeLast(h, threshold))
    ensures forall l: nat :: 2 <= l <= maxCycleLength && 2 * l <= |h| ==> !RepeatsWithPeriod(h, l)
    ensures |h| >= 5 ==> !Oscillates(TakeLast(h, 5))
  {
    FirstCycleIsLeast(h, 2, CycleLimit(h, maxCycleLength));
  }
}
