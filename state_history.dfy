/**
 * The bounded history of fingerprints kept between runs: each update appends
 * the current fingerprint and keeps the last twenty.
 */
module StateHistory {
  import opened Wrappers
  import opened PySlice
  import StateHash

  type Fingerprint = string

  const Capacity: nat := 20

  /** The history file. `content` is `None` when the file is missing or does
      not hold valid JSON; either way it is read as an empty history. */
  class HistoryFile {
    var content: Option<seq<Fingerprint>>

    constructor (initial: Option<seq<Fingerprint>>)
      ensures content == initial
    {
      content := initial;
    }

    function Read(): seq<Fingerprint>
      reads this
    {
      if content.Some? then content.value else []
    }
  }

  /** `(prior + [h])[-20:]`. */
  function Updated(prior: seq<Fingerprint>, h: Fingerprint): seq<Fingerprint> {
    TakeLast(prior + [h], Capacity)
  }

  /** Fingerprints the state, appends the fingerprint to the stored history
      (or to an empty one when there is no file), keeps the last twenty and
      writes them back. */
  method UpdateHistory(digest: StateHash.Projection -> string, current: StateHash.State, file: HistoryFile?)
    returns (history: seq<Fingerprint>, currentHash: Fingerprint)
    modifies file
    ensures currentHash == StateHash.HashState(digest, current)
    ensures file == null ==> history == [currentHash]
    ensures file != null ==> history == Updated(old(file.Read()), currentHash)
    ensures file != null ==> file.content == Some(history)
  {
    currentHash := StateHash.HashState(digest, current);
    history := [];
    if file != null && file.content.Some? {
      history := file.content.value;
    }
    history := history + [currentHash];
    history := TakeLast(history, Capacity);
    if file != null {
      file.content := Some(history);
    }
  }

  /** The result never exceeds the capacity, ends with the new fingerprint,
      and keeps the newest entries of the old history in order. */
  lemma UpdatedShape(prior: seq<Fingerprint>, h: Fingerprint)
    ensures var r := Updated(prior, h);
      && |r| == (if |prior| + 1 < Capacity then |prior| + 1 else Capacity)
      && r[|r| - 1] == h
      && r[..|r| - 1] == prior[|prior| - (|r| - 1)..]
  {
    var r := Updated(prior, h);
    var all := prior + [h];
    assert r == all[|all| - |r|..];
    assert r[..|r| - 1] == all[|all| - |r|..|all| - 1];
  }

  /** Applies a run of updates, oldest first. */
  function Replay(prior: seq<Fingerprint>, hs: seq<Fingerprint>): seq<Fingerprint>
    decreases |hs|
  {
    if hs == [] then prior else Replay(Updated(prior, hs[0]), hs[1..])
  }

  /** A run of at least one update keeps exactly the last twenty of all the
      fingerprints seen: truncating along the way loses nothing that matters. */
  lemma {:induction false} ReplayKeepsLast(prior: seq<Fingerprint>, hs: seq<Fingerprint>)
    requires hs != []
    ensures Replay(prior, hs) == TakeLast(prior + hs, Capacity)
    decreases |hs|
  {
    var first := prior + [hs[0]];
    assert first + hs[1..] == prior + hs;
    if |hs| == 1 {
      assert first == prior + hs;
    } else {
      ReplayKeepsLast(Updated(prior, hs[0]), hs[1..]);
      // Replay(prior, hs) == TakeLast(TakeLast(first, 20) + hs[1..], 20)
      TakeLastPrefix(first, hs[1..]);
    }
  }

  /** Truncating a list to its last twenty before appending more does not
      change the last twenty of the result. */
  lemma {:induction false} TakeLastPrefix(s: seq<Fingerprint>, t: seq<Fingerprint>)
    ensures TakeLast(TakeLast(s, Capacity) + t, Capacity) == TakeLast(s + t, Capacity)
    decreases |t|
  {
    if t != [] {
      var init := t[..|t| - 1];
      var x := t[|t| - 1];
      TakeLastPrefix(s, init);
      assert TakeLast(s, Capacity) + t == (TakeLast(s, Capacity) + init) + [x];
      assert s + t == (s + init) + [x];
      TakeLastAppend(TakeLast(s, Capacity) + init, x, Capacity);
      TakeLastAppend(s + init, x, Capacity);
    } else {
      assert TakeLast(s, Capacity) + t == TakeLast(s, Capacity);
      assert s + t == s;
    }
  }
}
