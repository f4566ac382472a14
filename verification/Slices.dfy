/** String slices as the source uses them: an index past the end is clamped to the end. */
module Slices {

  // s.slice(0, n)
  function Take<T>(s: seq<T>, n: nat): seq<T> {
    if n <= |s| then s[..n] else s
  }

  // s.slice(n)
  function Drop<T>(s: seq<T>, n: nat): seq<T> {
    if n <= |s| then s[n..] else []
  }

  // The middle of a text determines the text between its two ends, and the other way round.
  lemma {:induction false} PutBack(left: string, middle: string, right: string, other: string)
    ensures left + other + right == left + middle + right <==> other == middle
  {
    if left + other + right == left + middle + right {
      assert |other| == |middle|;
      assert (left + other + right)[|left|..|left| + |other|] == other;
      assert (left + middle + right)[|left|..|left| + |middle|] == middle;
    }
  }
}
