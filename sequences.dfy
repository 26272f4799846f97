/**
 * Sequence reversal, shared by the vector operators (`reverse(vector)`) and
 * the linked list (`list::reverse`), both of which are specified by it.
 */
module Sequences {

  /** The reverse of a sequence, defined independently of any loop. */
  function Reversed<T>(s: seq<T>): (r: seq<T>)
    ensures |r| == |s|
  {
    if s == [] then [] else Reversed(s[1..]) + [s[0]]
  }

  lemma {:induction false} ReversedAt<T>(s: seq<T>, k: nat)
    requires k < |s|
    ensures Reversed(s)[k] == s[|s| - 1 - k]
  {
    if k < |s| - 1 {
      ReversedAt(s[1..], k);
    }
  }

  /** Reversing twice gives back the original sequence. */
  lemma ReversedInvolution<T>(s: seq<T>)
    ensures Reversed(Reversed(s)) == s
  {
    var r := Reversed(s);
    forall k | 0 <= k < |s| ensures Reversed(r)[k] == s[k] {
      ReversedAt(r, k);
      ReversedAt(s, |s| - 1 - k);
    }
  }
}
