/** Generic facts about sequences used by the transfer proofs. */
module Sequences {

  /** Concatenation is associative. */
  lemma Associative<T>(a: seq<T>, b: seq<T>, c: seq<T>)
    ensures a + (b + c) == (a + b) + c
  {
  }

  /** Regrouping a three-part concatenation given in two steps: if `y` is `b + c`
      and `x` is `a + y`, then `x` is `(a + b) + c`. */
  lemma Regroup<T>(a: seq<T>, b: seq<T>, c: seq<T>, y: seq<T>, x: seq<T>, z: seq<T>)
    requires y == b + c
    requires x == a + y
    requires z == a + b
    ensures x == z + c
  {
    Associative(a, b, c);
  }

  /** `s` backwards. */
  function Reverse<T>(s: seq<T>): (r: seq<T>)
    ensures |r| == |s|
    ensures forall i :: 0 <= i < |s| ==> r[i] == s[|s| - 1 - i]
  {
    if |s| == 0 then [] else Reverse(s[1..]) + [s[0]]
  }

  /** Reversing keeps the elements. */
  lemma {:induction false} ReverseMultiset<T>(s: seq<T>)
    ensures multiset(Reverse(s)) == multiset(s)
    decreases |s|
  {
    if |s| > 0 {
      ReverseMultiset(s[1..]);
      assert s == [s[0]] + s[1..];
    }
  }
}
