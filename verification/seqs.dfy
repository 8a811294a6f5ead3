/** Slicing facts about sequences of any element type, proved once away from the renderer's definitions. */
module Seqs {

  /** Slicing a concatenation inside its first part. */
  lemma SliceAppend<T>(a: seq<T>, b: seq<T>, n: nat)
    requires n <= |a|
    ensures (a + b)[0..n] == a[0..n] && (a + b)[n..] == a[n..] + b
  {
  }

  /** A prefix one longer is the prefix followed by the next element. */
  lemma TakeSnoc<T>(s: seq<T>, i: nat)
    requires i < |s|
    ensures s[..i + 1] == s[..i] + [s[i]]
  {
  }

  /** A sequence built from one element and a tail splits back into them. */
  lemma ConsParts<T>(x: T, rest: seq<T>)
    ensures ([x] + rest)[0] == x && ([x] + rest)[1..] == rest
  {
  }

  /** Regrouping three runs joined in order. */
  lemma AppendAssoc<T>(a: seq<T>, b: seq<T>, c: seq<T>)
    ensures a + (b + c) == a + b + c
  {
  }

  /** The parts of a suffix, named by positions in the whole. */
  lemma SliceOfSlice<T>(s: seq<T>, i: nat, j: nat)
    requires i < j <= |s|
    ensures s[i..][0] == s[i] && s[i..][..j - i] == s[i..j] && s[i..][j - i..] == s[j..]
  {
  }
}
