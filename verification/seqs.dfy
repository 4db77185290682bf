/** Sequence helpers shared by the scoring code and the plot labels. */
module Seqs {

  function Min(x: int, y: int): int
  {
    if x <= y then x else y
  }

  /** `s[::-1]` / `reversed(s)`: element `i` of the result is element
      `|s| - 1 - i` of `s`. */
  function Reverse<T>(s: seq<T>): (r: seq<T>)
    ensures |r| == |s|
    ensures forall i :: 0 <= i < |s| ==> r[i] == s[|s| - 1 - i]
  {
    if s == [] then [] else Reverse(s[1..]) + [s[0]]
  }

  /** Reversing twice gives the sequence back. */
  lemma ReverseReverse<T>(s: seq<T>)
    ensures Reverse(Reverse(s)) == s
  {
  }
}
