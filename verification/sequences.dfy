/** Generic facts about sequence concatenation, slicing and multisets that
    the proofs use to regroup streams. */
module Sequences {

  /** Concatenation regroups to the right. */
  lemma Assoc<T>(a: seq<T>, b: seq<T>, c: seq<T>)
    ensures (a + b) + c == a + (b + c)
  {
  }

  /** Four-way concatenation regroups to the right. */
  lemma Regroup<T>(a: seq<T>, b: seq<T>, c: seq<T>, d: seq<T>)
    ensures (a + b + c) + d == a + (b + (c + d))
  {
  }

  /** A sequence built as one element then more splits back into the two. */
  lemma HeadTail<T>(x: T, y: seq<T>)
    ensures ([x] + y)[0] == x && ([x] + y)[1..] == y
  {
  }

  /** The head and the tail of a concatenation whose left part is non-empty. */
  lemma ConsSplit<T>(p: seq<T>, rest: seq<T>)
    requires |p| > 0
    ensures (p + rest)[0] == p[0] && (p + rest)[1..] == p[1..] + rest
  {
  }

  /** A prefix grows by the next element. */
  lemma TakeSnoc<T>(x: seq<T>, i: nat)
    requires i < |x|
    ensures x[..i] + [x[i]] == x[..i + 1]
  {
  }

  /** Splitting at `n` after taking the first element off. */
  lemma SplitHead<T>(s: seq<T>, n: nat)
    requires 0 < n <= |s|
    ensures s[..n] == [s[0]] + s[1..][..n - 1]
    ensures s[n..] == s[1..][n - 1..]
  {
  }

  /** The multiset of a non-empty sequence is that of its front plus its last element. */
  lemma MultisetSnoc<T>(t: seq<T>)
    requires |t| > 0
    ensures multiset(t) == multiset(t[..|t| - 1]) + multiset{t[|t| - 1]}
  {
    assert t == t[..|t| - 1] + [t[|t| - 1]];
  }

  /** A sequence is its part before `i`, the element at `i` and its part
      after. */
  lemma SplitAt<T>(s: seq<T>, i: nat)
    requires i < |s|
    ensures s == s[..i] + [s[i]] + s[i + 1..]
  {
  }
}
