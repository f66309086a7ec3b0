/**
 * Character classes and the handful of Python `str` operations that the
 * cleaners are built from: `\s`, `\w`, case-insensitive matching of a pattern
 * letter, `strip`, `lstrip`, `splitlines` and `replace`.
 */
module Text {
  import opened Wrappers

  /** Python's `str.isspace`, which is also what `\s` matches in a `str` pattern. */
  predicate IsSpace(c: char) {
    ('\t' <= c <= '\r') || ('\U{1C}' <= c <= ' ') || c == '\U{85}' || c == '\U{A0}'
    || c == '\U{1680}' || ('\U{2000}' <= c <= '\U{200A}') || c == '\U{2028}'
    || c == '\U{2029}' || c == '\U{202F}' || c == '\U{205F}' || c == '\U{3000}'
  }

  /**
   * `\w` in a `str` pattern: letters, digits and `_`.  Exact for Latin-1 and
   * the Latin Extended-A and -B blocks; other scripts count as non-word here.
   */
  predicate IsWordChar(c: char) {
    ('0' <= c <= '9') || ('A' <= c <= 'Z') || ('a' <= c <= 'z') || c == '_'
    || c == '\U{AA}' || c == '\U{B2}' || c == '\U{B3}' || c == '\U{B5}' || c == '\U{B9}'
    || c == '\U{BA}' || ('\U{BC}' <= c <= '\U{BE}')
    || ('\U{C0}' <= c <= '\U{24F}' && c != '\U{D7}' && c != '\U{F7}')
  }

  /** No whitespace character is a word character. */
  lemma SpaceIsNotWord(c: char)
    requires IsSpace(c)
    ensures !IsWordChar(c)
  {
  }

  /**
   * The letter `re.IGNORECASE` compares a character by: its simple lower-case
   * form, with the two equivalences the regex engine adds (dotless i and long s).
   */
  function Fold(c: char): char {
    if 'A' <= c <= 'Z' || ('\U{C0}' <= c <= '\U{DE}' && c != '\U{D7}') then (c as int + 32) as char
    else if c == '\U{130}' || c == '\U{131}' then 'i'
    else if c == '\U{212A}' then 'k'
    else if c == '\U{17F}' then 's'
    else c
  }

  /**
   * `c` matches the pattern character `x` under `re.IGNORECASE`.  Exact for
   * every pattern character used here (ASCII letters, `È`, punctuation).
   */
  predicate MatchesFold(c: char, x: char) {
    Fold(c) == Fold(x)
  }

  /** The text `t` occurs in `s` at position `p`. */
  predicate HasAt(s: string, p: nat, t: string) {
    p + |t| <= |s| && s[p..p + |t|] == t
  }

  lemma HasAtPair(s: string, p: nat, a: char, b: char)
    requires p + 1 < |s| && s[p] == a && s[p + 1] == b
    ensures HasAt(s, p, [a, b])
  {
    assert s[p..p + 2] == [a, b];
  }

  lemma HasAtChar(s: string, p: nat, t: string, k: nat)
    requires HasAt(s, p, t) && k < |t|
    ensures s[p + k] == t[k]
  {
    assert s[p..p + |t|][k] == s[p + k];
  }

  lemma ConsAppend(a: string, y: string)
    requires a != []
    ensures [a[0]] + (a[1..] + y) == a + y
  {
    assert [a[0]] + a[1..] == a;
  }

  lemma HasAtExtend(t: string, c: string, p: nat, u: string)
    requires HasAt(t, p, u)
    ensures HasAt(t + c, p, u)
  {
    assert (t + c)[p..p + |u|] == t[p..p + |u|];
  }

  lemma HasAtShrink(t: string, c: string, p: nat, u: string)
    requires p + |u| <= |t| && HasAt(t + c, p, u)
    ensures HasAt(t, p, u)
  {
    assert (t + c)[p..p + |u|] == t[p..p + |u|];
  }

  /** The text `t` occurs in `s` at position `p`, letters compared ignoring case. */
  predicate FoldAt(s: string, p: nat, t: string) {
    p + |t| <= |s| && forall k :: 0 <= k < |t| ==> MatchesFold(s[p + k], t[k])
  }

  lemma FoldAtExtend(t: string, c: string, p: nat, u: string)
    requires FoldAt(t, p, u)
    ensures FoldAt(t + c, p, u)
  {
    forall k | 0 <= k < |u|
      ensures MatchesFold((t + c)[p + k], u[k])
    {
      assert (t + c)[p + k] == t[p + k];
    }
  }

  /** The first index at or after `i` that holds a character of `cs`, or `|s|`. */
  function Find(s: string, i: nat, cs: set<char>): (r: nat)
    requires i <= |s|
    ensures i <= r <= |s|
    ensures forall k :: i <= k < r ==> s[k] !in cs
    ensures r < |s| ==> s[r] in cs
    decreases |s| - i
  {
    if i == |s| || s[i] in cs then i else Find(s, i + 1, cs)
  }

  /** The first index at or after `i` where `t` occurs, if any. */
  function FindText(s: string, i: nat, t: string): (r: Option<nat>)
    requires i <= |s|
    ensures r.Some? ==> i <= r.value && HasAt(s, r.value, t)
    ensures r.Some? ==> forall k :: i <= k < r.value ==> !HasAt(s, k, t)
    ensures r.None? ==> forall k :: i <= k ==> !HasAt(s, k, t)
    decreases |s| - i
  {
    if HasAt(s, i, t) then Some(i)
    else if i == |s| then None
    else FindText(s, i + 1, t)
  }

  /** The first index at or after `i` that is not whitespace, or `|s|`. */
  function SkipSpaces(s: string, i: nat): (r: nat)
    requires i <= |s|
    ensures i <= r <= |s|
    ensures forall k :: i <= k < r ==> IsSpace(s[k])
    ensures r < |s| ==> !IsSpace(s[r])
    decreases |s| - i
  {
    if i == |s| || !IsSpace(s[i]) then i else SkipSpaces(s, i + 1)
  }

  /** `str.lstrip()`: drops the leading whitespace. */
  function TrimLeft(s: string): (r: string)
    ensures |r| <= |s| && r == s[|s| - |r|..]
    ensures forall k :: 0 <= k < |s| - |r| ==> IsSpace(s[k])
    ensures r == [] || !IsSpace(r[0])
  {
    if s != [] && IsSpace(s[0]) then TrimLeft(s[1..]) else s
  }

  /** `str.rstrip()`: drops the trailing whitespace. */
  function TrimRight(s: string): (r: string)
    ensures |r| <= |s| && r == s[..|r|]
    ensures forall k :: |r| <= k < |s| ==> IsSpace(s[k])
    ensures r == [] || !IsSpace(r[|r| - 1])
  {
    if s != [] && IsSpace(s[|s| - 1]) then TrimRight(s[..|s| - 1]) else s
  }

  /**
   * `str.strip()`: the part of `s` between its leading and its trailing
   * whitespace.
   */
  function Strip(s: string): (r: string)
    ensures r == [] || (!IsSpace(r[0]) && !IsSpace(r[|r| - 1]))
    ensures var i := |s| - |TrimLeft(s)|;
      i + |r| <= |s| && r == s[i..i + |r|]
      && (forall k :: 0 <= k < i ==> IsSpace(s[k]))
      && (forall k :: i + |r| <= k < |s| ==> IsSpace(s[k]))
  {
    TrimRight(TrimLeft(s))
  }

  /** `str.lstrip(c)`: drops every leading copy of `c`. */
  function LStripChar(s: string, c: char): (r: string)
    ensures |r| <= |s| && r == s[|s| - |r|..]
    ensures forall k :: 0 <= k < |s| - |r| ==> s[k] == c
    ensures r == [] || r[0] != c
  {
    if s != [] && s[0] == c then LStripChar(s[1..], c) else s
  }

  /** The line boundaries of `str.splitlines`. */
  predicate IsLineBreak(c: char) {
    c == '\n' || c == '\r' || c == '\U{B}' || c == '\U{C}' || ('\U{1C}' <= c <= '\U{1E}')
    || c == '\U{85}' || c == '\U{2028}' || c == '\U{2029}'
  }

  /** The characters of `s` that are not line boundaries, in order. */
  function DropBreaks(s: string): string {
    if s == [] then [] else (if IsLineBreak(s[0]) then [] else [s[0]]) + DropBreaks(s[1..])
  }

  function Concat(ls: seq<string>): string {
    if ls == [] then [] else ls[0] + Concat(ls[1..])
  }

  /**
   * `str.splitlines()`: the lines of `s` without their boundaries; `\r\n`
   * is one boundary, and a boundary at the very end opens no new line.
   */
  function SplitLines(s: string): (r: seq<string>)
    decreases |s|
  {
    if s == [] then []
    else
      var k := FindBreak(s, 0);
      if k == |s| then [s]
      else [s[..k]] + SplitLines(s[BreakEnd(s, k)..])
  }

  /** Where the line boundary at `k` ends: `\r\n` is one boundary. */
  function BreakEnd(s: string, k: nat): (r: nat)
    requires k < |s|
    ensures k < r <= |s|
  {
    if s[k] == '\r' && k + 1 < |s| && s[k + 1] == '\n' then k + 2 else k + 1
  }

  /** The first line boundary at or after `i`, or `|s|`. */
  function FindBreak(s: string, i: nat): (r: nat)
    requires i <= |s|
    ensures i <= r <= |s|
    ensures forall k :: i <= k < r ==> !IsLineBreak(s[k])
    ensures r < |s| ==> IsLineBreak(s[r])
    decreases |s| - i
  {
    if i == |s| || IsLineBreak(s[i]) then i else FindBreak(s, i + 1)
  }

  /** `s.replace(pat, rep)`: left to right, non-overlapping. */
  function ReplaceAll(s: string, pat: string, rep: string): string
    requires pat != []
    decreases |s|
  {
    if s == [] then []
    else if HasAt(s, 0, pat) then rep + ReplaceAll(s[|pat|..], pat, rep)
    else [s[0]] + ReplaceAll(s[1..], pat, rep)
  }

  lemma {:induction false} DropBreaksAppend(a: string, b: string)
    ensures DropBreaks(a + b) == DropBreaks(a) + DropBreaks(b)
  {
    if a == [] {
      assert a + b == b;
    } else {
      assert (a + b)[0] == a[0];
      assert (a + b)[1..] == a[1..] + b;
      DropBreaksAppend(a[1..], b);
    }
  }

  lemma {:induction false} DropBreaksOfText(a: string)
    requires forall k :: 0 <= k < |a| ==> !IsLineBreak(a[k])
    ensures DropBreaks(a) == a
  {
    if a != [] {
      DropBreaksOfText(a[1..]);
    }
  }

  /** No line that `splitlines` returns holds a line boundary. */
  lemma {:induction false} SplitLinesHaveNoBreaks(s: string)
    ensures forall i, k :: 0 <= i < |SplitLines(s)| && 0 <= k < |SplitLines(s)[i]| ==> !IsLineBreak(SplitLines(s)[i][k])
    decreases |s|
  {
    if s != [] {
      var k := FindBreak(s, 0);
      if k < |s| {
        var next := BreakEnd(s, k);
        SplitLinesHaveNoBreaks(s[next..]);
        assert SplitLines(s) == [s[..k]] + SplitLines(s[next..]);
      }
    }
  }

  lemma SplitThree(s: string, i: nat, j: nat)
    requires i <= j <= |s|
    ensures s == s[..i] + (s[i..j] + s[j..])
  {
    assert s[i..] == s[i..j] + s[j..];
  }

  lemma {:induction false} DropBreaksOfBreaks(a: string)
    requires forall k :: 0 <= k < |a| ==> IsLineBreak(a[k])
    ensures DropBreaks(a) == []
  {
    if a != [] {
      DropBreaksOfBreaks(a[1..]);
    }
  }

  lemma DropBreaksParts(a: string, b: string, c: string)
    requires forall j :: 0 <= j < |a| ==> !IsLineBreak(a[j])
    requires forall j :: 0 <= j < |b| ==> IsLineBreak(b[j])
    ensures DropBreaks(a + (b + c)) == a + DropBreaks(c)
  {
    calc {
      DropBreaks(a + (b + c));
      { DropBreaksAppend(a, b + c); }
      DropBreaks(a) + DropBreaks(b + c);
      { DropBreaksOfText(a); }
      a + DropBreaks(b + c);
      { DropBreaksAppend(b, c); DropBreaksOfBreaks(b); }
      a + ([] + DropBreaks(c));
      { assert [] + DropBreaks(c) == DropBreaks(c); }
      a + DropBreaks(c);
    }
  }

  lemma BreakIsBreaks(s: string, k: nat)
    requires k < |s| && IsLineBreak(s[k])
    ensures forall j :: 0 <= j < BreakEnd(s, k) - k ==> IsLineBreak(s[k..BreakEnd(s, k)][j])
  {
  }

  lemma LineIsText(s: string, k: nat)
    requires k <= |s|
    requires forall j :: 0 <= j < k ==> !IsLineBreak(s[j])
    ensures forall j :: 0 <= j < |s[..k]| ==> !IsLineBreak(s[..k][j])
  {
  }

  /** Taking out the boundaries of `s` keeps its first line and drops the boundary after it. */
  lemma DropBreaksAtLine(s: string, k: nat)
    requires k < |s| && IsLineBreak(s[k])
    requires forall j :: 0 <= j < k ==> !IsLineBreak(s[j])
    ensures DropBreaks(s) == s[..k] + DropBreaks(s[BreakEnd(s, k)..])
  {
    var next := BreakEnd(s, k);
    BreakIsBreaks(s, k);
    LineIsText(s, k);
    DropBreaksParts(s[..k], s[k..next], s[next..]);
    SplitThree(s, k, next);
  }

  /**
   * `splitlines` loses only the boundaries: the lines put back together are
   * `s` with its boundaries taken out.
   */
  lemma {:induction false} SplitLinesKeepsText(s: string)
    ensures Concat(SplitLines(s)) == DropBreaks(s)
    decreases |s|
  {
    if s != [] {
      var k := FindBreak(s, 0);
      if k == |s| {
        DropBreaksOfText(s);
        assert SplitLines(s) == [s];
      } else {
        var next := BreakEnd(s, k);
        SplitLinesKeepsText(s[next..]);
        DropBreaksAtLine(s, k);
        var ls := SplitLines(s);
        assert ls == [s[..k]] + SplitLines(s[next..]);
        assert Concat(ls) == s[..k] + Concat(ls[1..]);
      }
    }
  }

  /** A line boundary `splitlines` recognises: `\r\n`, or one line-break character. */
  predicate IsBoundary(b: string) {
    (|b| == 2 && b[0] == '\r' && b[1] == '\n') || (|b| == 1 && IsLineBreak(b[0]))
  }

  predicate IsLoneReturn(b: string) {
    |b| == 1 && b[0] == '\r'
  }

  /** The lines with the boundary after each one put back. */
  function Rejoin(lines: seq<string>, seps: seq<string>): string
    requires |seps| == |lines|
  {
    if lines == [] then [] else lines[0] + seps[0] + Rejoin(lines[1..], seps[1..])
  }

  lemma RejoinCons(l: string, b: string, lines: seq<string>, seps: seq<string>)
    requires |seps| == |lines|
    ensures Rejoin([l] + lines, [b] + seps) == l + (b + Rejoin(lines, seps))
  {
    assert ([l] + lines)[1..] == lines && ([b] + seps)[1..] == seps;
  }

  lemma RejoinFirst(lines: seq<string>, seps: seq<string>)
    requires |seps| == |lines| && lines != [] && lines[0] == [] && seps[0] != []
    ensures Rejoin(lines, seps) != [] && Rejoin(lines, seps)[0] == seps[0][0]
  {
    var rest := Rejoin(lines[1..], seps[1..]);
    assert Rejoin(lines, seps) == lines[0] + seps[0] + rest;
    assert lines[0] + seps[0] + rest == seps[0] + rest;
  }

  /**
   * Boundaries as `splitlines` finds them: one after every line but the
   * last, which may end the text without one, and no lone `\r` that is
   * the first half of a `\r\n` split in two.  A last line without a
   * boundary after it is not empty, so a boundary at the very end opens no
   * new line and the empty text has no lines.
   */
  predicate Separates(lines: seq<string>, seps: seq<string>) {
    && |seps| == |lines|
    && (forall i :: 0 <= i < |seps| - 1 ==> IsBoundary(seps[i]))
    && (seps != [] ==> seps[|seps| - 1] == [] || IsBoundary(seps[|seps| - 1]))
    && (forall i :: 0 <= i < |seps| - 1 && IsLoneReturn(seps[i]) ==>
          !(lines[i + 1] == [] && seps[i + 1] != [] && seps[i + 1][0] == '\n'))
    && (seps != [] && seps[|seps| - 1] == [] ==> lines[|lines| - 1] != [])
  }

  lemma SeparatesCons(l: string, b: string, lines: seq<string>, seps: seq<string>)
    requires Separates(lines, seps) && IsBoundary(b)
    requires IsLoneReturn(b) && lines != [] && lines[0] == [] && seps[0] != [] ==> seps[0][0] != '\n'
    ensures Separates([l] + lines, [b] + seps)
  {
    var ls := [l] + lines;
    var bs := [b] + seps;
    forall i | 0 <= i < |bs| - 1
      ensures IsBoundary(bs[i])
    {
      if i > 0 {
        assert bs[i] == seps[i - 1];
      }
    }
    forall i | 0 <= i < |bs| - 1 && IsLoneReturn(bs[i])
      ensures !(ls[i + 1] == [] && bs[i + 1] != [] && bs[i + 1][0] == '\n')
    {
      if i > 0 {
        assert bs[i] == seps[i - 1] && bs[i + 1] == seps[i] && ls[i + 1] == lines[i];
      }
    }
  }

  lemma RejoinStep(s: string, k: nat, e: nat, lines: seq<string>, seps: seq<string>)
    requires k < e <= |s| && |seps| == |lines| && s[e..] == Rejoin(lines, seps)
    ensures s == Rejoin([s[..k]] + lines, [s[k..e]] + seps)
  {
    RejoinCons(s[..k], s[k..e], lines, seps);
    SplitThree(s, k, e);
  }

  /**
   * `s` is its lines put back together with the boundaries `splitlines`
   * removed: one after every line but the last, which may end the text
   * without one.
   */
  lemma {:induction false} SplitLinesRejoin(s: string) returns (seps: seq<string>)
    ensures Separates(SplitLines(s), seps)
    ensures s == Rejoin(SplitLines(s), seps)
    decreases |s|
  {
    if s == [] {
      seps := [];
    } else {
      var k := FindBreak(s, 0);
      if k == |s| {
        seps := [[]];
        assert SplitLines(s) == [s];
        RejoinCons(s, [], [], []);
      } else {
        var e := BreakEnd(s, k);
        var rest := s[e..];
        var more := SplitLinesRejoin(rest);
        var tail := SplitLines(rest);
        assert SplitLines(s) == [s[..k]] + tail;
        var b := s[k..e];
        seps := [b] + more;
        assert IsBoundary(b) by {
        }
        assert IsLoneReturn(b) && tail != [] && tail[0] == [] && more[0] != [] ==> more[0][0] != '\n' by {
          if IsLoneReturn(b) && tail != [] && tail[0] == [] && more[0] != [] {
            RejoinFirst(tail, more);
            assert s[e] == more[0][0];
          }
        }
        assert Separates(SplitLines(s), seps) by {
          SeparatesCons(s[..k], b, tail, more);
        }
        RejoinStep(s, k, e, tail, more);
      }
    }
  }
}
