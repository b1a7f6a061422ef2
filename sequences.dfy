/**
 * Reversal of a sequence, the order a list ends up in when every element is
 * put in front, and the element-wise image of a sequence.
 */
module Sequences {
  function Reversed<T>(s: seq<T>): (r: seq<T>)
    ensures |r| == |s|
  {
    if s == [] then [] else [s[|s| - 1]] + Reversed(s[..|s| - 1])
  }

  /** Element `i` of the reversal is element `i` counted from the end. */
  lemma {:induction false} ReversedIndex<T>(s: seq<T>, i: nat)
    requires i < |s|
    ensures Reversed(s)[i] == s[|s| - 1 - i]
  {
    if i > 0 {
      var init := s[..|s| - 1];
      assert Reversed(s) == [s[|s| - 1]] + Reversed(init);
      ReversedIndex(init, i - 1);
      assert init[|init| - 1 - (i - 1)] == s[|s| - 1 - i];
    }
  }

  /** Putting `x` in front of the reversal of `s` reverses `s + [x]`. */
  lemma ReversedSnoc<T>(s: seq<T>, x: T)
    ensures Reversed(s + [x]) == [x] + Reversed(s)
  {
    assert (s + [x])[..|s|] == s;
  }

  function Map<A, B>(f: A -> B, s: seq<A>): (r: seq<B>)
    ensures |r| == |s|
    ensures forall i :: 0 <= i < |s| ==> r[i] == f(s[i])
  {
    if s == [] then []
    else
      var init := Map(f, s[..|s| - 1]);
      var r := init + [f(s[|s| - 1])];
      assert forall i :: 0 <= i < |s| - 1 ==> r[i] == init[i] && s[..|s| - 1][i] == s[i];
      r
  }

  /** Extending the sequence by one element extends its image by that element's image. */
  lemma MapSnoc<A, B>(f: A -> B, s: seq<A>, x: A)
    ensures Map(f, s + [x]) == Map(f, s) + [f(x)]
  {
    assert (s + [x])[..|s|] == s;
  }

  /** Element `i` of the reversed image is the image of element `i` counted from the end. */
  lemma ReversedMap<A, B>(f: A -> B, s: seq<A>, i: nat)
    requires i < |s|
    ensures Reversed(Map(f, s))[i] == f(s[|s| - 1 - i])
  {
    ReversedIndex(Map(f, s), i);
  }
}
