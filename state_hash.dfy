/**
 * The fingerprint of an execution state: the part of the state that counts
 * (phase, indicators, recent files, recent actions) is normalised into a
 * projection, and the fingerprint is the first twelve hex digits of a digest
 * of that projection.
 */
module StateHash {
  import opened PySlice
  import opened Order

  /** The JSON values a state may carry. */
  datatype Json =
    | JNull
    | JBool(b: bool)
    | JInt(i: int)
    | JStr(s: string)
    | JList(items: seq<Json>)
    | JObject(fields: map<string, Json>)

  /** An execution state. A missing key is read as its default: `phase` as
      null, `indicators` as the empty mapping, the two lists as empty lists.
      `other` holds every further key of the state. */
  datatype State = State(
    phase: Json,
    indicators: map<string, Json>,
    recentFiles: seq<string>,
    recentActions: seq<Json>,
    other: map<string, Json>)

  /** What the digest is taken of. */
  datatype Projection = Projection(
    phase: Json,
    indicators: seq<(string, Json)>,
    recentFiles: seq<string>,
    recentActions: seq<Json>)

  /** `sorted(m.items())`: the entries in ascending key order (keys are unique,
      so values are never compared). */
  function SortedItems(m: map<string, Json>): (r: seq<(string, Json)>)
    ensures |r| == |m| == |SortedSet(m.Keys)|
    ensures forall i :: 0 <= i < |r| ==> r[i].0 == SortedSet(m.Keys)[i] && r[i].0 in m && r[i].1 == m[r[i].0]
  {
    var keys := SortedSet(m.Keys);
    SortedSetSpec(m.Keys);
    assert |keys| == |m.Keys| == |m|;
    seq(|keys|, i requires 0 <= i < |keys| => (keys[i], m[keys[i]]))
  }

  function Project(s: State): Projection {
    Projection(s.phase, SortedItems(s.indicators), TakeLast(Sort(s.recentFiles), 5), TakeLast(s.recentActions, 3))
  }

  /** The fingerprint; `digest` stands for the MD5 hex digest of the projection's
      JSON text. */
  function HashState(digest: Projection -> string, s: State): (r: string)
    ensures var d := digest(Project(s)); |r| == (if |d| < 12 then |d| else 12) && r == d[..|r|]
  {
    var d := digest(Project(s));
    TakeFirst(d, 12)
  }

  /** Keys outside the four that count never change the fingerprint. */
  lemma OtherKeysIgnored(digest: Projection -> string, s: State, t: State)
    requires s.phase == t.phase && s.indicators == t.indicators
    requires s.recentFiles == t.recentFiles && s.recentActions == t.recentActions
    ensures HashState(digest, s) == HashState(digest, t)
  {
  }

  /** Only which files occur (and how often) matters, not their order. */
  lemma FileOrderIgnored(digest: Projection -> string, s: State, t: State)
    requires s.phase == t.phase && s.indicators == t.indicators && s.recentActions == t.recentActions
    requires multiset(s.recentFiles) == multiset(t.recentFiles)
    ensures Project(s) == Project(t)
    ensures HashState(digest, s) == HashState(digest, t)
  {
    SortIgnoresOrder(s.recentFiles, t.recentFiles);
  }

  /** Only the last three actions matter. */
  lemma OnlyLastActionsCount(digest: Projection -> string, s: State, t: State)
    requires s.phase == t.phase && s.indicators == t.indicators && s.recentFiles == t.recentFiles
    requires TakeLast(s.recentActions, 3) == TakeLast(t.recentActions, 3)
    ensures HashState(digest, s) == HashState(digest, t)
  {
  }

  /** Equal projections give equal fingerprints, and distinct phases give
      distinct projections. */
  lemma ProjectionDecides(digest: Projection -> string, s: State, t: State)
    ensures Project(s) == Project(t) ==> HashState(digest, s) == HashState(digest, t)
    ensures s.phase != t.phase ==> Project(s) != Project(t)
  {
  }

  /** The files kept are the (up to) five greatest names in sorted order, not
      the five most recent: every file left out sorts no later than every file
      kept. */
  lemma {:induction false} KeptFilesAreGreatest(s: State)
    ensures var kept := Project(s).recentFiles;
      && Sorted(kept)
      && |kept| == (if |s.recentFiles| < 5 then |s.recentFiles| else 5)
      && multiset(kept) <= multiset(s.recentFiles)
      && forall x, y :: x in multiset(s.recentFiles) - multiset(kept) && y in kept ==> Le(x, y)
  {
    var sorted := Sort(s.recentFiles);
    SortedSuffixIsGreatest(sorted, TakeLast(sorted, 5));
  }

  lemma SortedSuffixIsGreatest(sorted: seq<string>, kept: seq<string>)
    requires Sorted(sorted) && |kept| <= |sorted| && kept == sorted[|sorted| - |kept|..]
    ensures Sorted(kept) && multiset(kept) <= multiset(sorted)
    ensures forall x, y :: x in multiset(sorted) - multiset(kept) && y in kept ==> Le(x, y)
  {
    var cut := |sorted| - |kept|;
    assert sorted == sorted[..cut] + kept;
    assert multiset(sorted) == multiset(sorted[..cut]) + multiset(kept);
    forall x, y | x in multiset(sorted) - multiset(kept) && y in kept
      ensures Le(x, y)
    {
      assert x in multiset(sorted[..cut]);
      var i :| 0 <= i < cut && sorted[i] == x;
      var j :| 0 <= j < |kept| && kept[j] == y;
      assert sorted[cut + j] == y;
    }
  }

  /** The indicators enter the projection as their entries in ascending key
      order, each key once. */
  lemma IndicatorsNormalised(s: State)
    ensures var items := Project(s).indicators;
      && |items| == |s.indicators|
      && (forall i :: 0 <= i < |items| ==> items[i].0 in s.indicators && s.indicators[items[i].0] == items[i].1)
      && (forall k :: k in s.indicators ==> exists i :: 0 <= i < |items| && items[i].0 == k)
      && (forall i, j :: 0 <= i < j < |items| ==> Le(items[i].0, items[j].0) && items[i].0 != items[j].0)
  {
    var items := Project(s).indicators;
    var keys := SortedSet(s.indicators.Keys);
    SortedSetSpec(s.indicators.Keys);
    forall k | k in s.indicators ensures exists i :: 0 <= i < |items| && items[i].0 == k {
      var i :| 0 <= i < |keys| && keys[i] == k;
      assert items[i].0 == k;
    }
    forall i, j | 0 <= i < j < |items| ensures Le(items[i].0, items[j].0) && items[i].0 != items[j].0 {
      assert items[i].0 == keys[i] && items[j].0 == keys[j];
    }
  }
}
