/**
 * The post-fix `build_defs` applies to a definition before storing it: a
 * leading "In ...istica," register label and a leading copula "E"/"È" are
 * dropped, and the whitespace is normalized again.
 */
module PostFix {
  import opened Wrappers
  import opened Text
  import opened Whitespace

  /** The first index at or after `i` that is not a word character, or `|s|`. */
  function WordRunEnd(s: string, i: nat): (r: nat)
    requires i <= |s|
    ensures i <= r <= |s|
    ensures forall k :: i <= k < r ==> IsWordChar(s[k])
    ensures r < |s| ==> !IsWordChar(s[r])
    decreases |s| - i
  {
    if i == |s| || !IsWordChar(s[i]) then i else WordRunEnd(s, i + 1)
  }

  // ---------------------------------------------------------------------
  // `^(In\s+\w+istica,\s*)`, ignoring case, is deleted.

  /**
   * `s[..e]` matches `In\s+\w+istica,\s*`: "In", whitespace `s[2..b]`, a
   * run of word characters `s[b..c]` ending in "istica", a comma at `c`, and
   * all the whitespace after it.
   */
  predicate IsLeadInSpan(s: string, b: nat, c: nat, e: nat) {
    2 < b && b + 7 <= c < e <= |s|
    && MatchesFold(s[0], 'I') && MatchesFold(s[1], 'n')
    && (forall k :: 2 <= k < b ==> IsSpace(s[k]))
    && (forall k :: b <= k < c ==> IsWordChar(s[k]))
    && FoldAt(s, c - 6, "istica") && s[c] == ','
    && (forall k :: c + 1 <= k < e ==> IsSpace(s[k]))
    && (e == |s| || !IsSpace(s[e]))
  }

  /** The pieces of a lead-in are forced: each one is where the text says it is. */
  lemma LeadInSpanForced(s: string, b: nat, c: nat, e: nat)
    requires IsLeadInSpan(s, b, c, e)
    ensures b == SkipSpaces(s, 2) && c == WordRunEnd(s, b) && e == SkipSpaces(s, c + 1)
  {
    assert IsWordChar(s[b]);
    if IsSpace(s[b]) {
      SpaceIsNotWord(s[b]);
    }
    assert !IsWordChar(s[c]);
  }

  lemma LeadInSpansForced(s: string)
    ensures forall b: nat, c: nat, e: nat :: IsLeadInSpan(s, b, c, e) ==>
              b == SkipSpaces(s, 2) && c == WordRunEnd(s, b) && e == SkipSpaces(s, c + 1)
  {
    forall b: nat, c: nat, e: nat | IsLeadInSpan(s, b, c, e)
      ensures b == SkipSpaces(s, 2) && c == WordRunEnd(s, b) && e == SkipSpaces(s, c + 1)
    {
      LeadInSpanForced(s, b, c, e);
    }
  }

  /** Where the lead-in at the start of `s` ends; the match is unique. */
  function LeadInEnd(s: string): (r: Option<nat>)
    ensures r.Some? ==> exists b, c :: IsLeadInSpan(s, b, c, r.value)
    ensures forall b: nat, c: nat, e: nat :: IsLeadInSpan(s, b, c, e) ==> r == Some(e)
  {
    LeadInSpansForced(s);
    if |s| < 2 then None
    else
      var b := SkipSpaces(s, 2);
      var c := WordRunEnd(s, b);
      var e := if c < |s| then SkipSpaces(s, c + 1) else |s|;
      if IsLeadInSpan(s, b, c, e) then Some(e) else None
  }

  /** `re.sub(r"^(In\s+\w+istica,\s*)", "", d, flags=re.IGNORECASE)`. */
  function DropLeadIn(s: string): string {
    match LeadInEnd(s)
    case Some(e) => s[e..]
    case None => s
  }

  // ---------------------------------------------------------------------
  // `^\b(E|È|E')\b\s+`, ignoring case, is deleted.

  /** `\b` at `i`: exactly one of the characters on either side of `i` is a word character. */
  predicate WordBoundary(s: string, i: nat)
    requires i <= |s|
  {
    (0 < i && IsWordChar(s[i - 1])) != (i < |s| && IsWordChar(s[i]))
  }

  /** The alternative `alt` of `^\b(E|È|E')\b\s+` matches at the start of `s`. */
  predicate AlternativeMatches(s: string, alt: string) {
    FoldAt(s, 0, alt) && |alt| < |s| && WordBoundary(s, 0) && WordBoundary(s, |alt|) && IsSpace(s[|alt|])
  }

  /** Where the match of the copula pattern at the start of `s` ends, trying the alternatives in order. */
  function CopulaEnd(s: string): Option<nat> {
    if AlternativeMatches(s, "E") then Some(SkipSpaces(s, 1))
    else if AlternativeMatches(s, "È") then Some(SkipSpaces(s, 1))
    else if AlternativeMatches(s, "E'") then Some(SkipSpaces(s, 2))
    else None
  }

  /** `re.sub(r"^\b(E|È|E')\b\s+", "", d, flags=re.IGNORECASE)`. */
  function DropCopula(s: string): string {
    match CopulaEnd(s)
    case Some(e) => s[e..]
    case None => s
  }

  /**
   * The alternative `E'` never matches: after the apostrophe `\b` needs a
   * word character and `\s+` needs whitespace at the same position.
   */
  lemma ApostropheAlternativeNeverMatches(s: string)
    ensures !AlternativeMatches(s, "E'")
  {
    if AlternativeMatches(s, "E'") {
      assert MatchesFold(s[0 + 1], "E'"[1]);
      assert s[1] == '\'';
      SpaceIsNotWord(s[2]);
    }
  }

  /**
   * The copula is removed exactly when the definition starts with `E`, `e`,
   * `È` or `è` followed by whitespace; it then goes with all that whitespace.
   */
  lemma CopulaEndExactly(s: string)
    ensures CopulaEnd(s).Some? <==> |s| >= 2 && s[0] in {'E', 'e', 'È', 'è'} && IsSpace(s[1])
    ensures CopulaEnd(s).Some? ==> CopulaEnd(s) == Some(SkipSpaces(s, 1))
  {
    ApostropheAlternativeNeverMatches(s);
    if |s| >= 2 && IsSpace(s[1]) {
      SpaceIsNotWord(s[1]);
    }
    if AlternativeMatches(s, "E") {
      assert MatchesFold(s[0 + 0], "E"[0]);
    }
    if AlternativeMatches(s, "È") {
      assert MatchesFold(s[0 + 0], "È"[0]);
    }
    if |s| >= 2 && s[0] in {'E', 'e', 'È', 'è'} && IsSpace(s[1]) {
      assert MatchesFold(s[0], 'E') || MatchesFold(s[0], 'È');
      assert AlternativeMatches(s, "E") || AlternativeMatches(s, "È");
    }
  }

  /** The post-fix of `build_defs`: lead-in, then copula, then whitespace. */
  function Fix(d: string): string {
    NormalizeSpace(DropCopula(DropLeadIn(d)))
  }

  /** A post-fixed definition is trimmed, with single spaces between words. */
  lemma FixNormalized(d: string)
    ensures IsNormalized(Fix(d))
  {
    NormalizeSpaceNormalizes(DropCopula(DropLeadIn(d)));
  }
}
