/**
 * Python's slices `s[-n:]` and `s[:m]` for any integer bound, with the
 * clamping and negative-index rules of the language.
 */
module PySlice {

  /** `s[-n:]`: for n > 0 the last n elements (all of s when it is shorter);
      `s[-0:]` is `s[0:]`, all of s; for n < 0 it is `s[|n|:]`. */
  function TakeLast<T>(s: seq<T>, n: int): (r: seq<T>)
    ensures 0 < n <= |s| ==> |r| == n
    ensures n > |s| ==> r == s
    ensures n == 0 ==> r == s
    ensures n < 0 ==> r == s[(if -n < |s| then -n else |s|)..]
    ensures |r| <= |s| && r == s[|s| - |r|..]
  {
    if n > 0 then s[(if n < |s| then |s| - n else 0)..]
    else if n == 0 then s
    else s[(if -n < |s| then -n else |s|)..]
  }

  /** `s[:m]`: for m >= 0 the first m elements (all of s when it is shorter);
      for m < 0 all but the last |m|. */
  function TakeFirst<T>(s: seq<T>, m: int): (r: seq<T>)
    ensures 0 <= m <= |s| ==> |r| == m
    ensures m > |s| ==> r == s
    ensures m < 0 ==> |r| == if |s| + m > 0 then |s| + m else 0
    ensures |r| <= |s| && r == s[..|r|]
  {
    if m >= 0 then s[..(if m < |s| then m else |s|)]
    else s[..(if |s| + m > 0 then |s| + m else 0)]
  }

  /** Keeping the last n of a list that grows one element at a time is the
      same as keeping the last n of the whole list. */
  lemma {:induction false} TakeLastAppend<T>(s: seq<T>, x: T, n: nat)
    requires n > 0
    ensures TakeLast(TakeLast(s, n) + [x], n) == TakeLast(s + [x], n)
  {
    var t := TakeLast(s, n);
    if |s| >= n {
      assert t == s[|s| - n..];
      assert (t + [x])[1..] == (s + [x])[|s| + 1 - n..];
    }
  }

  /** `[f(x) for x in xs]`, built front to back. */
  function MapSeq<A, B>(f: A -> B, xs: seq<A>): seq<B>
    decreases |xs|
  {
    if xs == [] then [] else MapSeq(f, xs[..|xs| - 1]) + [f(xs[|xs| - 1])]
  }

  /** One result per element, each the image of its element. */
  lemma {:induction false} MapSeqSpec<A, B>(f: A -> B, xs: seq<A>)
    ensures |MapSeq(f, xs)| == |xs|
    ensures forall k :: 0 <= k < |xs| ==> MapSeq(f, xs)[k] == f(xs[k])
    decreases |xs|
  {
    if xs != [] {
      var init := xs[..|xs| - 1];
      MapSeqSpec(f, init);
      assert forall k :: 0 <= k < |init| ==> xs[k] == init[k];
    }
  }

  lemma MapSeqSnoc<A, B>(f: A -> B, xs: seq<A>, k: nat)
    requires k < |xs|
    ensures MapSeq(f, xs[..k + 1]) == MapSeq(f, xs[..k]) + [f(xs[k])]
  {
    assert xs[..k + 1][..k] == xs[..k];
  }
}
