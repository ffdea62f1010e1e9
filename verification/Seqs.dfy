/** Small facts about sequences and sets that several modules need. */
module Seqs {

  function Without<T>(s: seq<T>, k: nat): (r: seq<T>)
    requires k < |s|
    ensures |r| == |s| - 1
  {
    s[..k] + s[k + 1..]
  }

  lemma WithoutAt<T>(s: seq<T>, k: nat)
    requires k < |s|
    ensures forall i {:trigger Without(s, k)[i]} :: 0 <= i < |s| - 1 ==>
              Without(s, k)[i] == if i < k then s[i] else s[i + 1]
  {}

  /** The bag of elements loses exactly the removed one. */
  lemma WithoutBag<T>(s: seq<T>, k: nat)
    requires k < |s|
    ensures multiset(s) == multiset(Without(s, k)) + multiset{s[k]}
  {
    assert s == s[..k] + [s[k]] + s[k + 1..];
  }

  /** A set that maps one to one into another is no larger. */
  lemma {:induction false} InjectionIsSmaller<T>(s: set<T>, f: map<T, nat>, r: set<nat>)
    requires forall q :: q in s ==> q in f && f[q] in r
    requires forall p, q :: p in s && q in s && f[p] == f[q] ==> p == q
    ensures |s| <= |r|
    decreases |s|
  {
    if s != {} {
      var q :| q in s;
      InjectionIsSmaller(s - {q}, f, r - {f[q]});
    }
  }
}
