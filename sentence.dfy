/**
 * `first_sentence`: the first sentence of a whitespace-normalized text, kept
 * only when it is at least `min_len` characters long.
 */
module Sentence {
  import opened Wrappers
  import opened Text
  import opened Whitespace

  /**
   * `(.+?[.!?])(\s|$)` can match `n[..k + 1]`: at least one character, then
   * `.`, `!` or `?` at `k`, then whitespace or the end of `n`.  (`.` does not
   * match a newline, but a normalized text holds none.)
   */
  predicate IsSentenceEnd(n: string, k: nat) {
    1 <= k < |n| && n[k] in ".!?" && (k + 1 == |n| || IsSpace(n[k + 1]))
  }

  /** The first sentence end at or after `i`, if any. */
  function SentenceEndFrom(n: string, i: nat): (r: Option<nat>)
    requires 1 <= i
    ensures r.Some? ==> i <= r.value && IsSentenceEnd(n, r.value)
    ensures r.Some? ==> forall k :: i <= k < r.value ==> !IsSentenceEnd(n, k)
    ensures r.None? ==> forall k :: i <= k ==> !IsSentenceEnd(n, k)
    decreases |n| - i
  {
    if i >= |n| then None
    else if IsSentenceEnd(n, i) then Some(i)
    else SentenceEndFrom(n, i + 1)
  }

  /**
   * The rest of `first_sentence` once the text is normalized: `n` cut after
   * its first sentence end if that sentence is at least `minLen` long, the
   * whole of `n` otherwise.  The search never looks past the first end.
   */
  function CutFirstSentence(n: string, minLen: int): (r: string)
    ensures |r| <= |n| && r == n[..|r|]
    ensures |r| < |n| ==>
              2 <= |r| && minLen <= |r| && IsSentenceEnd(n, |r| - 1)
              && forall k :: 1 <= k < |r| - 1 ==> !IsSentenceEnd(n, k)
    ensures forall k: nat :: IsSentenceEnd(n, k) && minLen <= k + 1 && (forall j :: 1 <= j < k ==> !IsSentenceEnd(n, j)) ==>
              r == n[..k + 1]
  {
    match SentenceEndFrom(n, 1)
    case Some(k) =>
      assert forall k': nat :: IsSentenceEnd(n, k') && (forall j :: 1 <= j < k' ==> !IsSentenceEnd(n, j)) ==> k' == k;
      if minLen <= k + 1 then n[..k + 1] else n
    case None => n
  }

  /**
   * `first_sentence(s, min_len)`: the normalized text, cut after its first
   * sentence end as `CutFirstSentence` states.
   */
  function FirstSentence(s: string, minLen: int): string {
    CutFirstSentence(NormalizeSpace(s), minLen)
  }

  /** A prefix of a normalized text that does not end in whitespace is normalized. */
  lemma PrefixNormalized(n: string, m: nat)
    requires IsNormalized(n) && m <= |n|
    requires m == 0 || !IsSpace(n[m - 1])
    ensures IsNormalized(n[..m])
  {
    var r := n[..m];
    forall i | 0 <= i < |r| && IsSpace(r[i])
      ensures r[i] == ' ' && 0 < i < |r| - 1 && !IsSpace(r[i + 1])
    {
      assert r[i] == n[i];
      assert i + 1 < |r| ==> r[i + 1] == n[i + 1];
    }
  }

  /** What `first_sentence` returns is trimmed, with single spaces between words. */
  lemma FirstSentenceNormalized(s: string, minLen: int)
    ensures IsNormalized(FirstSentence(s, minLen))
  {
    var n := NormalizeSpace(s);
    var r := FirstSentence(s, minLen);
    NormalizeSpaceNormalizes(s);
    if |r| < |n| {
      PrefixNormalized(n, |r|);
    }
  }
}
