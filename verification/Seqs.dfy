/** Facts about sequences that the verifier does not see unaided. */
module Seqs {

  lemma Regroup<T>(a: seq<T>, b: seq<T>, c: seq<T>)
    ensures a + (b + c) == a + b + c
  {
  }

  lemma Regroup4<T>(a: seq<T>, b: seq<T>, c: seq<T>, d: seq<T>)
    ensures a + (b + c + d) == (a + b + c) + d
  {
  }

  lemma RegroupRight<T>(a: seq<T>, b: seq<T>, c: seq<T>, d: seq<T>)
    ensures a + b + c + d == a + (b + (c + d))
  {
  }

  lemma SliceSlice<T>(s: seq<T>, a: nat, b: nat, i: nat, j: nat)
    requires a <= b <= |s| && i <= j <= b - a
    ensures s[a..b][i..j] == s[a+i..a+j]
  {
    var t := s[a..b][i..j];
    assert forall k :: 0 <= k < j - i ==> t[k] == s[a+i+k];
  }

  lemma Middle<T>(a: seq<T>, b: seq<T>, c: seq<T>)
    ensures (a + b + c)[..|a|] == a && (a + b + c)[|a|..|a|+|b|] == b && (a + b + c)[|a|+|b|..] == c
  {
  }

  lemma UpdateMiddle<T>(a: seq<T>, x: T, c: seq<T>, y: T)
    ensures |a| < |a + [x] + c| && (a + [x] + c)[|a|] == x && (a + [x] + c)[|a| := y] == a + [y] + c
  {
  }

  ghost predicate NoDup<T>(s: seq<T>) {
    forall i, j :: 0 <= i < j < |s| ==> s[i] != s[j]
  }

  /** s with t put in at k. */
  function Splice<T>(s: seq<T>, k: nat, t: seq<T>): (r: seq<T>)
    requires k <= |s|
    ensures |r| == |s| + |t|
  {
    s[..k] + t + s[k..]
  }

  lemma SpliceAt<T>(s: seq<T>, k: nat, t: seq<T>, i: nat)
    requires k <= |s| && i < |s| + |t|
    ensures Splice(s, k, t)[i] == if i < k then s[i] else if i < k + |t| then t[i-k] else s[i-|t|]
  {
  }
}
