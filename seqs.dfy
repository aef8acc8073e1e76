/** Order-preserving selection: the relation every filtering query in the model keeps. */
module Seqs {
  /** `a` can be obtained from `b` by deleting elements, the rest staying in order. */
  predicate IsSubsequence<T(==)>(a: seq<T>, b: seq<T>)
    decreases |b|
  {
    if b == [] then a == []
    else (a != [] && a[0] == b[0] && IsSubsequence(a[1..], b[1..])) || IsSubsequence(a, b[1..])
  }

  lemma {:induction false} SubsequenceRefl<T>(s: seq<T>)
    ensures IsSubsequence(s, s)
    decreases |s|
  {
    if s != [] {
      SubsequenceRefl(s[1..]);
    }
  }

  /** Deleting the element at position `i` leaves a subsequence. */
  lemma {:induction false} DeleteAtSubsequence<T>(s: seq<T>, i: nat)
    requires i < |s|
    ensures IsSubsequence(s[..i] + s[i + 1..], s)
    decreases i
  {
    if i == 0 {
      assert s[..0] + s[1..] == s[1..];
      SubsequenceRefl(s[1..]);
    } else {
      var rest := s[1..];
      DeleteAtSubsequence(rest, i - 1);
      var d := s[..i] + s[i + 1..];
      assert d[0] == s[0];
      assert d[1..] == rest[..i - 1] + rest[i..];
    }
  }

  /** Sequences with the same multiset have the same members. */
  lemma MultisetMembers<T>(a: seq<T>, b: seq<T>)
    requires multiset(a) == multiset(b)
    ensures forall x :: x in a <==> x in b
  {
    forall x ensures x in a <==> x in b {
      assert x in a <==> x in multiset(a);
      assert x in b <==> x in multiset(b);
    }
  }
}
