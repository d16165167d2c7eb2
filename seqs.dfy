/** Generic facts about slicing sequences, stated once so that the proofs
    about the codec and the loops never reason about sequence equality
    element by element. */
module Seqs {

  lemma LastSplit<T>(s: seq<T>)
    requires s != []
    ensures s[..|s| - 1] + [s[|s| - 1]] == s
  {
  }

  lemma PrefixOfPrefix<T>(s: seq<T>, n: nat, k: nat)
    requires k <= n <= |s|
    ensures s[..n][..k] == s[..k]
  {
  }

  /** Dropping the last element of a suffix is taking the suffix of the
      shortened sequence. */
  lemma SuffixDropLast<T>(s: seq<T>, k: nat)
    requires k < |s|
    ensures s[k..][..|s[k..]| - 1] == s[..|s| - 1][k..]
    ensures s[k..][|s[k..]| - 1] == s[|s| - 1]
  {
  }

  lemma AppendAssoc<T>(a: seq<T>, b: seq<T>, c: seq<T>)
    ensures (a + b) + c == a + (b + c)
  {
  }

  /** Dropping the last element of a concatenation with a non-empty tail. */
  lemma AppendDropLast<T>(a: seq<T>, b: seq<T>)
    requires b != []
    ensures (a + b)[..|a + b| - 1] == a + b[..|b| - 1]
    ensures (a + b)[|a + b| - 1] == b[|b| - 1]
  {
  }

  lemma AppendEmpty<T>(a: seq<T>)
    ensures a + [] == a
  {
  }

  lemma WholeSlices<T>(s: seq<T>)
    ensures s[..|s|] == s && s[|s|..] == []
  {
  }
}
