/** Taking one element out of a sequence. */
module Seqs {

  /** The first occurrence of x taken out. */
  function Minus<T(==)>(s: seq<T>, x: T): (r: seq<T>)
    ensures forall c | c in r :: c in s
  {
    if s == [] then [] else if s[0] == x then s[1..] else [s[0]] + Minus(s[1..], x)
  }

  lemma {:induction false} MinusAt<T>(s: seq<T>, x: T, k: int)
    requires 0 <= k < |s| && s[k] == x && forall i | 0 <= i < k :: s[i] != x
    ensures Minus(s, x) == s[..k] + s[k + 1..]
    decreases k
  {
    if k > 0 {
      MinusAt(s[1..], x, k - 1);
      assert s[..k] + s[k + 1..] == [s[0]] + (s[1..][..k - 1] + s[1..][k..]);
    }
  }

  lemma {:induction false} MinusMultiset<T>(s: seq<T>, x: T)
    requires x in s
    ensures multiset(Minus(s, x)) == multiset(s) - multiset{x}
  {
    assert s == [s[0]] + s[1..];
    if s[0] != x {
      MinusMultiset(s[1..], x);
    }
  }
}
