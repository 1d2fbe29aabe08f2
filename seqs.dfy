/** Facts about sequences that hold whatever the element type. */
module Seqs {

  /** A non-empty sequence is its front followed by its last element. */
  lemma LastSplit<T>(s: seq<T>)
    requires s != []
    ensures s == s[..|s| - 1] + [s[|s| - 1]]
  {
  }

  /** Concatenation is associative. */
  lemma AppendAssoc<T>(a: seq<T>, b: seq<T>, c: seq<T>)
    ensures a + (b + c) == (a + b) + c
  {
  }

  /** A sequence is its first `k` elements followed by the rest. */
  lemma TakeDrop<T>(s: seq<T>, k: nat)
    requires k <= |s|
    ensures s[..k] + s[k..] == s
  {
  }

  /** The first `i + 1` elements, shortened by one, are the first `i`; their last is element `i`. */
  lemma TakeOfTake<T>(s: seq<T>, i: nat)
    requires i < |s|
    ensures s[..i + 1][..i] == s[..i] && s[..i + 1][i] == s[i] && |s[..i + 1]| == i + 1
  {
  }

  /** Appending `x` and then overwriting it with `y` appends `y`. */
  lemma UpdateAfterAppend<T>(s: seq<T>, x: T, y: T)
    ensures (s + [x])[|s| := y] == s + [y]
  {
  }

  /** Overwriting the last element is replacing it. */
  lemma UpdateLast<T>(s: seq<T>, y: T)
    requires s != []
    ensures s[|s| - 1 := y] == s[..|s| - 1] + [y]
  {
  }
}
