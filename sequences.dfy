/**
 * Small facts about sequence concatenation and slicing, each stated once so
 * that the proofs using them stay small.
 */
module Sequences {

  lemma AppendAssoc<T>(x: seq<T>, y: seq<T>, z: seq<T>)
    ensures x + (y + z) == (x + y) + z
  {
  }

  lemma DropAppend<T>(a: seq<T>, b: seq<T>, n: nat)
    requires n <= |a|
    ensures (a + b)[n..] == a[n..] + b
  {
  }

  lemma DropTwice<T>(s: seq<T>, i: nat, j: nat)
    requires i + j <= |s|
    ensures s[i..][j..] == s[i + j..]
  {
  }

  lemma TakeOfDrop<T>(s: seq<T>, i: nat, j: nat)
    requires i <= j <= |s|
    ensures s[i..][..j - i] == s[i..j]
  {
  }

  /** A concatenation splits back into its two parts. */
  lemma SplitAppend<T>(a: seq<T>, b: seq<T>)
    ensures (a + b)[..|a|] == a && (a + b)[|a|..] == b
  {
  }

  lemma LastOfSuffix<T>(a: seq<T>, n: nat)
    requires n < |a|
    ensures a[n..][|a| - n - 1] == a[|a| - 1]
  {
  }

  lemma LastOfPrepend<T>(c: T, x: seq<T>)
    requires x != []
    ensures ([c] + x)[|x|] == x[|x| - 1]
  {
  }

  lemma IndexPastPrefix<T>(a: seq<T>, b: seq<T>, e: nat)
    requires e < |b|
    ensures |a| + e < |a + b| && (a + b)[|a| + e] == b[e]
  {
  }

  /** A prefix cut at `j` is the prefix cut at `i`, the element at `i`, and the slice between. */
  lemma PrefixAround<T>(s: seq<T>, i: nat, j: nat)
    requires i < j <= |s|
    ensures s[..i] + ([s[i]] + s[i + 1..][..j - i - 1]) == s[..j]
  {
    assert s[i + 1..][..j - i - 1] == s[i + 1..j];
  }
}
