/**
 * The analysis buffers: a `collections.deque` with a `maxlen` drops its
 * oldest entry when an append would overflow it, and the plain lists that
 * some buffers are rebound to after a clear grow without bound.
 */
module Deques {
  import opened Common

  /** A deque of capacity `cap`, or a plain list when `cap` is `None`. */
  datatype Buffer<T> = Buffer(items: seq<T>, cap: Option<nat>)

  /** `collections.deque(maxlen = cap)`. */
  function Deque<T>(cap: nat): Buffer<T>
  {
    Buffer([], Some(cap))
  }

  /** `[]`: the unbounded list a clear rebinds a buffer to. */
  function List<T>(): Buffer<T>
  {
    Buffer([], None)
  }

  /** The buffer holds no more than its capacity. */
  predicate Fits<T>(b: Buffer<T>)
  {
    b.cap.Some? ==> |b.items| <= b.cap.value
  }

  function Min(a: nat, b: nat): nat
  {
    if a <= b then a else b
  }

  /** The last `cap` entries of `s` (all of them if there are fewer). */
  function Keep<T>(s: seq<T>, cap: nat): (r: seq<T>)
    ensures |r| == Min(|s|, cap)
  {
    s[|s| - Min(|s|, cap)..]
  }

  /** `append`: a deque at capacity drops its oldest entry; a list just grows. */
  function Push<T>(b: Buffer<T>, x: T): (r: Buffer<T>)
  {
    match b.cap
    case None => Buffer(b.items + [x], None)
    case Some(m) => Buffer(Keep(b.items + [x], m), Some(m))
  }

  /** `append` of each of `xs` in order. */
  function PushAll<T>(b: Buffer<T>, xs: seq<T>): (r: Buffer<T>)
    decreases |xs|
  {
    if xs == [] then b else Push(PushAll(b, xs[..|xs| - 1]), xs[|xs| - 1])
  }

  /** `collections.deque(b.copy(), maxlen = m)`: the most recent `m` entries under the new capacity. */
  function Resized<T>(b: Buffer<T>, m: nat): (r: Buffer<T>)
  {
    Buffer(Keep(b.items, m), Some(m))
  }

  /** An append keeps a buffer within its capacity, keeps the capacity, and lengthens it by at most one. */
  lemma PushFits<T>(b: Buffer<T>, x: T)
    requires Fits(b)
    ensures Fits(Push(b, x)) && Push(b, x).cap == b.cap
    ensures |Push(b, x).items| == if b.cap == Some(|b.items|) then |b.items| else |b.items| + 1
  {
  }

  /** The newest entry is the one appended, unless the capacity is 0. */
  lemma PushNewest<T>(b: Buffer<T>, x: T)
    requires b.cap != Some(0)
    ensures |Push(b, x).items| > 0 && Push(b, x).items[|Push(b, x).items| - 1] == x
  {
  }

  /** A suffix of a suffix is a suffix. */
  lemma SuffixOfSuffix<T>(w: seq<T>, a: nat, b: nat)
    requires a + b <= |w|
    ensures w[a..][b..] == w[a + b..]
  {
  }

  /** Appending to the kept entries and keeping again is keeping the whole history. */
  lemma KeepAppend<T>(s: seq<T>, x: T, m: nat)
    ensures Keep(Keep(s, m) + [x], m) == Keep(s + [x], m)
  {
    var w := s + [x];
    var lt := Min(|s|, m);
    var u := Keep(s, m) + [x];
    assert u == w[|s| - lt..];
    SuffixOfSuffix(w, |s| - lt, lt + 1 - Min(|s| + 1, m));
  }

  /**
   * A run of appends to a deque leaves the most recent `cap` entries of
   * everything it ever held; to a list, everything.
   */
  lemma {:induction false} PushAllKeeps<T>(b: Buffer<T>, xs: seq<T>)
    ensures b.cap.None? ==> PushAll(b, xs) == Buffer(b.items + xs, None)
    ensures b.cap.Some? && Fits(b) ==> PushAll(b, xs) == Buffer(Keep(b.items + xs, b.cap.value), b.cap)
    decreases |xs|
  {
    if xs != [] {
      var init, last := xs[..|xs| - 1], xs[|xs| - 1];
      PushAllKeeps(b, init);
      assert xs == init + [last];
      assert b.items + xs == (b.items + init) + [last];
      if b.cap.Some? && Fits(b) {
        KeepAppend(b.items + init, last, b.cap.value);
      }
    }
  }

  /** `cap` appends to a deque of capacity `cap` flush it: only the appended entries remain. */
  lemma PushAllFlushes<T>(b: Buffer<T>, xs: seq<T>)
    requires b.cap == Some(|xs|) && Fits(b)
    ensures PushAll(b, xs).items == xs
  {
    PushAllKeeps(b, xs);
    assert (b.items + xs)[|b.items|..] == xs;
  }

  /** A resize keeps the newest entries, as many as the new capacity allows, in order. */
  lemma ResizedKeepsNewest<T>(b: Buffer<T>, m: nat)
    ensures Fits(Resized(b, m))
    ensures |Resized(b, m).items| == Min(|b.items|, m)
    ensures forall i :: 0 <= i < |Resized(b, m).items| ==>
              Resized(b, m).items[i] == b.items[|b.items| - |Resized(b, m).items| + i]
  {
  }
}
