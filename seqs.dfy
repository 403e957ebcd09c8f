/** Facts about sequence concatenation and slicing, stated once for any element
    type so that the proofs about command lists and logs need not redo them. */
module Seqs {

  lemma ConcatAssoc<T>(x: seq<T>, y: seq<T>, z: seq<T>)
    ensures x + (y + z) == (x + y) + z
  {
  }

  /** Taking the head off and putting it back in front of a longer list. */
  lemma ConsConcat<T>(a: seq<T>, b: seq<T>)
    requires a != []
    ensures [a[0]] + (a[1..] + b) == a + b
  {
    assert [a[0]] + a[1..] == a;
  }

  /** Appending the head and then the tail is appending the whole. */
  lemma HeadThenTail<T>(h: seq<T>, a: seq<T>)
    requires a != []
    ensures h + [a[0]] + a[1..] == h + a
  {
    assert [a[0]] + a[1..] == a;
    ConcatAssoc(h, [a[0]], a[1..]);
  }

  lemma WholePrefix<T>(s: seq<T>)
    ensures s[..|s|] == s
  {
  }

  /** A prefix of a prefix is a prefix. */
  lemma PrefixOfPrefix<T>(s: seq<T>, n: nat, j: nat)
    requires j <= n <= |s|
    ensures s[..n][..j] == s[..j]
  {
  }
}
