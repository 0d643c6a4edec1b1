/** General facts about sequences and their multisets, used by the permutation proofs. */
module Seqs {

  /** A non-empty sequence is its first element followed by the rest. */
  lemma Uncons<T>(s: seq<T>)
    requires |s| > 0
    ensures s == [s[0]] + s[1..]
  {
  }

  /** A sequence of two or more elements is its first two followed by the rest. */
  lemma Uncons2<T>(s: seq<T>)
    requires |s| >= 2
    ensures s == [s[0], s[1]] + s[2..]
  {
  }

  /** A sequence is what comes before position `j`, the element at `j`, and what comes after. */
  lemma Around<T>(s: seq<T>, j: nat)
    requires j < |s|
    ensures s == s[..j] + [s[j]] + s[j + 1..]
  {
  }

  /** The last element of a sequence adds one occurrence of itself to the multiset of the front. */
  lemma SnocCount<T>(s: seq<T>, x: T)
    requires |s| > 0
    ensures multiset(s)[x] == multiset(s[..|s| - 1])[x] + (if s[|s| - 1] == x then 1 else 0)
  {
    assert s == s[..|s| - 1] + [s[|s| - 1]];
  }

  /** Taking one element out of a sequence takes it out of its multiset. */
  lemma RemoveAt<T>(s: seq<T>, j: nat)
    requires j < |s|
    ensures multiset(s[..j] + s[j + 1..]) == multiset(s) - multiset{s[j]}
  {
    Around(s, j);
  }
}
