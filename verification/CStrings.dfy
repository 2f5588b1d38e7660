/** Searches of the C library and of std::string. */
module CStrings {
  import opened Options

  /** strchr: where c stands first. */
  function StrChr(s: string, c: char): (r: Option<nat>)
    ensures r.None? ==> c !in s
    ensures r.Some? ==> r.value < |s| && s[r.value] == c && c !in s[..r.value]
  {
    if s == "" then None
    else if s[0] == c then Some(0)
    else
      match StrChr(s[1..], c)
      case None => None
      case Some(i) => assert s[..i+1] == [s[0]] + s[1..][..i]; Some(i + 1)
  }

  /** Where c stands last. */
  function StrRChr(s: string, c: char): (r: Option<nat>)
    ensures r.None? ==> c !in s
    ensures r.Some? ==> r.value < |s| && s[r.value] == c && c !in s[r.value+1..]
  {
    if s == "" then None
    else if s[|s|-1] == c then Some(|s| - 1)
    else StrRChr(s[..|s|-1], c)
  }

  lemma FirstIs(s: string, c: char, k: nat)
    requires k < |s| && s[k] == c && c !in s[..k]
    ensures StrChr(s, c) == Some(k)
  {
  }

  lemma LastIs(s: string, c: char, k: nat)
    requires k < |s| && s[k] == c && c !in s[k+1..]
    ensures StrRChr(s, c) == Some(k)
  {
  }

  lemma NowhereIs(s: string, c: char)
    requires c !in s
    ensures StrChr(s, c).None? && StrRChr(s, c).None?
  {
  }

  predicate PairAt(s: string, a: char, b: char, i: int) {
    0 <= i < |s| - 1 && s[i] == a && s[i+1] == b
  }

  /** strstr for a pattern of two characters. */
  function StrPair(s: string, a: char, b: char): (r: Option<nat>)
    ensures r.None? ==> forall i :: !PairAt(s, a, b, i)
    ensures r.Some? ==> PairAt(s, a, b, r.value) && forall i :: i < r.value ==> !PairAt(s, a, b, i)
  {
    if |s| < 2 then None
    else if s[0] == a && s[1] == b then Some(0)
    else
      match StrPair(s[1..], a, b)
      case None =>
        assert forall i :: PairAt(s, a, b, i) ==> i > 0 && PairAt(s[1..], a, b, i - 1);
        None
      case Some(i) =>
        assert forall j :: PairAt(s, a, b, j) ==> j > 0 && PairAt(s[1..], a, b, j - 1);
        Some(i + 1)
  }

  /** The first place from i on at which stop holds, or the end. */
  function Until(s: string, i: nat, stop: char -> bool): (r: nat)
    requires i <= |s|
    ensures i <= r <= |s| && (r < |s| ==> stop(s[r]))
    ensures forall k :: i <= k < r ==> !stop(s[k])
    decreases |s| - i
  {
    if i == |s| || stop(s[i]) then i else Until(s, i + 1, stop)
  }

  lemma UntilIs(s: string, i: nat, j: nat, stop: char -> bool)
    requires i <= j <= |s| && (forall k :: i <= k < j ==> !stop(s[k])) && (j < |s| ==> stop(s[j]))
    ensures Until(s, i, stop) == j
  {
  }
}
