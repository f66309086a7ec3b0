/**
 * `normalize_space`: every run of whitespace becomes one space and the ends
 * are stripped.  Its reference definition is Python's `" ".join(s.split())`:
 * the words of `s` joined by single spaces.
 */
module Whitespace {
  import opened Text

  /** `re.sub(r"\s+", " ", s)`: each maximal run of whitespace becomes one space. */
  function Collapse(s: string): string
    decreases |s|
  {
    if s == [] then []
    else if IsSpace(s[0]) then " " + Collapse(TrimLeft(s))
    else [s[0]] + Collapse(s[1..])
  }

  /** `normalize_space` without its `html.unescape` step. */
  function NormalizeSpace(s: string): string {
    Strip(Collapse(s))
  }

  /** The first whitespace index at or after `i`, or `|s|`. */
  function WordEnd(s: string, i: nat): (r: nat)
    requires i <= |s|
    ensures i <= r <= |s|
    ensures forall k :: i <= k < r ==> !IsSpace(s[k])
    ensures r < |s| ==> IsSpace(s[r])
    decreases |s| - i
  {
    if i == |s| || IsSpace(s[i]) then i else WordEnd(s, i + 1)
  }

  /** `str.split()`: the maximal runs of non-whitespace, in order. */
  function Words(s: string): seq<string>
    decreases |s|
  {
    if s == [] then []
    else if IsSpace(s[0]) then Words(s[1..])
    else
      var k := WordEnd(s, 0);
      [s[..k]] + Words(s[k..])
  }

  /** A word is a non-empty run without whitespace. */
  predicate IsWord(w: string) {
    w != [] && forall k :: 0 <= k < |w| ==> !IsSpace(w[k])
  }

  /** `" ".join(ws)`. */
  function Join(ws: seq<string>): string {
    if ws == [] then []
    else if |ws| == 1 then ws[0]
    else ws[0] + " " + Join(ws[1..])
  }

  /**
   * Whitespace-normal text: its only whitespace character is the plain space,
   * which is never first, never last and never next to another whitespace.
   */
  predicate IsNormalized(s: string) {
    forall i :: 0 <= i < |s| && IsSpace(s[i]) ==> s[i] == ' ' && 0 < i < |s| - 1 && !IsSpace(s[i + 1])
  }

  /** Every element of `Words(s)` is a word. */
  lemma {:induction false} WordsAreWords(s: string)
    ensures forall i :: 0 <= i < |Words(s)| ==> IsWord(Words(s)[i])
    decreases |s|
  {
    if s != [] {
      if IsSpace(s[0]) {
        WordsAreWords(s[1..]);
      } else {
        var k := WordEnd(s, 0);
        WordsAreWords(s[k..]);
        assert IsWord(s[..k]);
        assert Words(s) == [s[..k]] + Words(s[k..]);
      }
    }
  }

  /** Leading whitespace contributes no word. */
  lemma {:induction false} WordsSkipSpaces(s: string)
    ensures Words(s) == Words(TrimLeft(s))
    decreases |s|
  {
    if s != [] && IsSpace(s[0]) {
      WordsSkipSpaces(s[1..]);
    }
  }

  lemma JoinCons(w: string, ws: seq<string>)
    requires ws != []
    ensures Join([w] + ws) == w + " " + Join(ws)
  {
    assert ([w] + ws)[1..] == ws;
  }

  /** One space, if `s` ends in whitespace. */
  function TrailingSpace(s: string): string {
    if s != [] && IsSpace(s[|s| - 1]) then " " else ""
  }

  lemma TrimLeftOfTrimmed(s: string)
    requires s == [] || !IsSpace(s[0])
    ensures TrimLeft(s) == s
  {
  }

  lemma TrimRightOfTrimmed(s: string)
    requires s == [] || !IsSpace(s[|s| - 1])
    ensures TrimRight(s) == s
  {
  }

  lemma {:induction false} TrimRightSpace(s: string)
    ensures TrimRight(s + " ") == TrimRight(s)
  {
    assert (s + " ")[..|s + " "| - 1] == s;
  }

  /** Joined words begin and end with a word, and are empty only when there are no words. */
  lemma {:induction false} JoinNormalized(ws: seq<string>)
    requires forall i :: 0 <= i < |ws| ==> IsWord(ws[i])
    ensures IsNormalized(Join(ws))
    ensures (Join(ws) == []) == (ws == [])
    ensures ws != [] ==> !IsSpace(Join(ws)[0]) && !IsSpace(Join(ws)[|Join(ws)| - 1])
  {
    if |ws| > 1 {
      JoinNormalized(ws[1..]);
      var w, rest := ws[0], Join(ws[1..]);
      assert Join(ws) == w + " " + rest;
      forall i | 0 <= i < |Join(ws)| && IsSpace(Join(ws)[i])
        ensures Join(ws)[i] == ' ' && 0 < i < |Join(ws)| - 1 && !IsSpace(Join(ws)[i + 1])
      {
        if i > |w| {
          assert Join(ws)[i] == rest[i - |w| - 1];
          assert i + 1 < |Join(ws)| ==> Join(ws)[i + 1] == rest[i - |w|];
        }
      }
    }
  }

  /** A word followed by whatever comes after it collapses word first. */
  lemma {:induction false} CollapseWord(s: string, k: nat)
    requires k <= |s|
    requires forall j :: 0 <= j < k ==> !IsSpace(s[j])
    ensures Collapse(s) == s[..k] + Collapse(s[k..])
  {
    if k > 0 {
      CollapseWord(s[1..], k - 1);
      assert s[1..][k - 1..] == s[k..];
      assert s[..k] == [s[0]] + s[1..][..k - 1];
    }
  }

  /**
   * Without leading whitespace, the collapsed text is the joined words,
   * followed by one space when `s` has words and ends in whitespace.
   */
  lemma {:induction false} CollapseIsJoin(s: string)
    requires s == [] || !IsSpace(s[0])
    ensures Collapse(s) == Join(Words(s)) + TrailingSpace(s)
    decreases |s|
  {
    if s != [] {
      var k := WordEnd(s, 0);
      var w := s[..k];
      CollapseWord(s, k);
      assert Words(s) == [w] + Words(s[k..]);
      if k == |s| {
        assert s[k..] == [];
      } else {
        CollapseAfterWord(s, k);
      }
    }
  }

  /** The step of `CollapseIsJoin` past the first word `s[..k]`, when whitespace follows it. */
  lemma {:induction false} CollapseAfterWord(s: string, k: nat)
    requires 0 < k < |s| && IsSpace(s[k])
    requires forall j :: 0 <= j < k ==> !IsSpace(s[j])
    requires Collapse(s) == s[..k] + Collapse(s[k..])
    requires Words(s) == [s[..k]] + Words(s[k..])
    ensures Collapse(s) == Join(Words(s)) + TrailingSpace(s)
    decreases |s|, 1
  {
    var w, u := s[..k], TrimLeft(s[k..]);
    assert Collapse(s) == w + (" " + Collapse(u));
    assert Words(s) == [w] + Words(u) by { WordsSkipSpaces(s[k..]); }
    assert u == s[|s| - |u|..];
    if u == [] {
      assert IsSpace(s[|s| - 1]) by {
        assert s[|s| - 1] == s[k..][|s[k..]| - 1];
      }
      CollapseLastWord(s, w, u);
    } else {
      CollapseIsJoin(u);
      CollapseInnerWord(s, w, u);
    }
  }

  lemma CollapseLastWord(s: string, w: string, u: string)
    requires u == [] && s != [] && IsSpace(s[|s| - 1])
    requires Collapse(s) == w + (" " + Collapse(u))
    requires Words(s) == [w] + Words(u)
    ensures Collapse(s) == Join(Words(s)) + TrailingSpace(s)
  {
    assert Words(u) == [];
    assert Collapse(u) == [];
    assert Join([w]) == w;
  }

  lemma CollapseInnerWord(s: string, w: string, u: string)
    requires u != [] && !IsSpace(u[0]) && |u| <= |s| && u == s[|s| - |u|..]
    requires Collapse(s) == w + (" " + Collapse(u))
    requires Words(s) == [w] + Words(u)
    requires Collapse(u) == Join(Words(u)) + TrailingSpace(u)
    ensures Collapse(s) == Join(Words(s)) + TrailingSpace(s)
  {
    SuffixTrailingSpace(s, u);
    WordsNonEmpty(u);
    JoinCons(w, Words(u));
    ConcatAssoc(w, Join(Words(u)), TrailingSpace(u));
  }

  lemma SuffixTrailingSpace(s: string, u: string)
    requires u != [] && |u| <= |s| && u == s[|s| - |u|..]
    ensures TrailingSpace(u) == TrailingSpace(s)
  {
    assert u[|u| - 1] == s[|s| - 1];
  }

  lemma WordsNonEmpty(u: string)
    requires u != [] && !IsSpace(u[0])
    ensures Words(u) != []
  {
  }

  lemma ConcatAssoc(w: string, j: string, t: string)
    ensures w + (" " + (j + t)) == (w + " " + j) + t
  {
  }

  /** Trimming the collapsed text of `s` leaves its joined words. */
  lemma {:induction false} NormalizeSpaceIsJoinWords(s: string)
    ensures NormalizeSpace(s) == Join(Words(s))
  {
    var t := TrimLeft(s);
    var j := Join(Words(t));
    CollapseLead(s);
    CollapseIsJoin(t);
    WordsSkipSpaces(s);
    JoinEnds(t);
    StripAround(j, Collapse(s), TrailingSpace(t));
  }

  /** Collapsing turns the leading whitespace of `s`, if any, into one space. */
  lemma CollapseLead(s: string)
    ensures Collapse(s) == (if s != [] && IsSpace(s[0]) then " " else "") + Collapse(TrimLeft(s))
  {
  }

  /** The joined words of a text without leading whitespace are trimmed, and empty only when it is. */
  lemma JoinEnds(t: string)
    requires t == [] || !IsSpace(t[0])
    ensures var j := Join(Words(t));
      (j == [] || (!IsSpace(j[0]) && !IsSpace(j[|j| - 1]))) && (TrailingSpace(t) == "" || j != [])
  {
    WordsAreWords(t);
    JoinNormalized(Words(t));
    if t != [] {
      WordsNonEmpty(t);
    }
  }

  lemma TrimLeftSpace(x: string)
    ensures TrimLeft(" " + x) == TrimLeft(x)
  {
    var s := " " + x;
    assert s[0] == ' ' && IsSpace(s[0]);
    calc {
      TrimLeft(s);
      TrimLeft(s[1..]);
      { assert s[1..] == x; }
      TrimLeft(x);
    }
  }

  /** Stripping at most one space from each side of a trimmed text gives that text. */
  lemma StripAround(j: string, c: string, tail: string)
    requires j == [] || (!IsSpace(j[0]) && !IsSpace(j[|j| - 1]))
    requires c == j + tail || c == " " + (j + tail)
    requires tail == "" || (tail == " " && j != [])
    ensures Strip(c) == j
  {
    if j == [] {
      assert c == "" || c == " ";
    } else if c == j + tail {
      StripTrimmedTail(j, tail);
    } else {
      TrimLeftSpace(j + tail);
      StripTrimmedTail(j, tail);
    }
  }

  lemma StripTrimmedTail(j: string, tail: string)
    requires j != [] && !IsSpace(j[0]) && !IsSpace(j[|j| - 1])
    requires tail == "" || tail == " "
    ensures TrimLeft(j + tail) == j + tail
    ensures Strip(j + tail) == j
  {
    TrimLeftOfTrimmed(j + tail);
    TrimRightSpace(j);
    TrimRightOfTrimmed(j);
  }

  /**
   * The normalized text has no leading or trailing whitespace, no two
   * adjacent whitespace characters, and no whitespace other than `' '`.
   */
  lemma NormalizeSpaceNormalizes(s: string)
    ensures IsNormalized(NormalizeSpace(s))
  {
    NormalizeSpaceIsJoinWords(s);
    WordsAreWords(s);
    JoinNormalized(Words(s));
  }

  /** Every whitespace character is a plain space followed by a non-space. */
  predicate SingleSpaced(s: string) {
    forall i :: 0 <= i < |s| && IsSpace(s[i]) ==> s[i] == ' ' && i < |s| - 1 && !IsSpace(s[i + 1])
  }

  lemma SingleSpacedTail(s: string)
    requires s != [] && SingleSpaced(s)
    ensures SingleSpaced(s[1..])
  {
    var t := s[1..];
    forall i | 0 <= i < |t| && IsSpace(t[i])
      ensures t[i] == ' ' && i < |t| - 1 && !IsSpace(t[i + 1])
    {
      assert t[i] == s[i + 1];
    }
  }

  /** Collapsing leaves text whose whitespace is already single spaces unchanged. */
  lemma {:induction false} CollapseSingleSpaced(s: string)
    requires SingleSpaced(s)
    ensures Collapse(s) == s
    decreases |s|
  {
    if s != [] {
      var t := s[1..];
      assert Collapse(t) == t by {
        SingleSpacedTail(s);
        CollapseSingleSpaced(t);
      }
      if IsSpace(s[0]) {
        assert s == " " + t && (t == [] || !IsSpace(t[0]));
        calc {
          Collapse(s);
          " " + Collapse(TrimLeft(s));
          { TrimLeftSpace(t); }
          " " + Collapse(TrimLeft(t));
          { TrimLeftOfTrimmed(t); }
          " " + Collapse(t);
        }
      } else {
        assert s == [s[0]] + t;
        assert Collapse(s) == [s[0]] + Collapse(t);
      }
    }
  }

  /** `normalize_space` (without unescaping) leaves normalized text unchanged. */
  lemma NormalizeSpaceKeepsNormalized(s: string)
    requires IsNormalized(s)
    ensures NormalizeSpace(s) == s
  {
    CollapseSingleSpaced(s);
    if s != [] {
      assert !IsSpace(s[0]) && !IsSpace(s[|s| - 1]);
      TrimLeftOfTrimmed(s);
      TrimRightOfTrimmed(s);
    }
  }
}
