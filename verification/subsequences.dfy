/** Order-preserving deletion: the relation between a list and what is left of it
    after some of its elements have been removed. */
module Subsequences {

  /** `a` is `b` with zero or more elements deleted, the rest kept in order. */
  predicate Subseq<T(==)>(a: seq<T>, b: seq<T>)
    decreases |b|
  {
    if b == [] then a == []
    else Subseq(a, b[1..]) || (a != [] && a[0] == b[0] && Subseq(a[1..], b[1..]))
  }

  lemma {:induction false} SubseqRefl<T>(a: seq<T>)
    ensures Subseq(a, a)
    decreases |a|
  {
    if a != [] {
      SubseqRefl(a[1..]);
    }
  }

  /** Deleting the element at one position leaves a subsequence. */
  lemma {:induction false} SubseqDelete<T>(b: seq<T>, k: nat)
    requires k < |b|
    ensures Subseq(b[..k] + b[k+1..], b)
    decreases k
  {
    if k == 0 {
      assert b[..0] + b[1..] == b[1..];
      SubseqRefl(b[1..]);
    } else {
      var a := b[..k] + b[k+1..];
      SubseqDelete(b[1..], k - 1);
      assert b[1..][..k-1] + b[1..][k..] == a[1..];
    }
  }

  lemma {:induction false} SubseqTrans<T>(a: seq<T>, b: seq<T>, c: seq<T>)
    requires Subseq(a, b) && Subseq(b, c)
    ensures Subseq(a, c)
    decreases |c|
  {
    if c == [] {
    } else if Subseq(b, c[1..]) {
      SubseqTrans(a, b, c[1..]);
    } else if Subseq(a, b[1..]) {
      SubseqTrans(a, b[1..], c[1..]);
    } else {
      SubseqTrans(a[1..], b[1..], c[1..]);
    }
  }

  /** Every element of a subsequence comes from the original list. */
  lemma {:induction false} SubseqMembers<T>(a: seq<T>, b: seq<T>)
    requires Subseq(a, b)
    ensures |a| <= |b|
    ensures forall x :: x in a ==> x in b
    decreases |b|
  {
    if b == [] {
    } else if Subseq(a, b[1..]) {
      SubseqMembers(a, b[1..]);
    } else {
      SubseqMembers(a[1..], b[1..]);
      assert a == [a[0]] + a[1..];
    }
  }
}
