/**
 * The selection logic of `fetch_wiktionary_definition` and
 * `fetch_wikipedia_summary`.  The HTTP replies are data: each reply record
 * holds the status code and the fields of the decoded JSON that the fetchers
 * read.
 */
module Fetchers {
  import opened Wrappers
  import opened Text
  import opened Whitespace
  import opened Markup
  import opened Sentence

  /** Shortest definition a fetcher accepts. */
  const MinDefinition := 12

  /** `min_len` of `first_sentence`, as the fetchers call it. */
  const SentenceMin := 20

  /**
   * Reply to the `action=parse` request.  `wikitext` is `None` when the
   * JSON has no `"parse"` member, and `Some("")` when the member has no
   * wikitext.
   */
  datatype ParseReply = ParseReply(status: int, hasError: bool, wikitext: Option<string>)

  /** Reply to the `prop=extracts` request: each page's `"extract"`, `""` when missing. */
  datatype ExtractReply = ExtractReply(status: int, extracts: seq<string>)

  /** Reply to the summary request; a missing member is `""`. */
  datatype SummaryReply = SummaryReply(status: int, kind: string, extract: string, description: string)

  // ---------------------------------------------------------------------
  // The Italian section: `==\s*Italiano\s*==(?P<body>.*?)(?:\n==[^=].*?==|\Z)`
  // searched with DOTALL and IGNORECASE.

  /**
   * `s[p..b + 2]` is a header `==`, whitespace `s[p + 2..a]`, "Italiano" in
   * any case at `a`, whitespace `s[a + 8..b]`, `==`.
   */
  predicate IsHeaderSpan(s: string, p: nat, a: nat, b: nat) {
    p + 2 <= a && a + 8 <= b && HasAt(s, p, "==") && HasAt(s, b, "==")
    && (forall k :: p + 2 <= k < a ==> IsSpace(s[k]))
    && FoldAt(s, a, "italiano")
    && (forall k :: a + 8 <= k < b ==> IsSpace(s[k]))
  }

  lemma HeaderSpanForced(s: string, p: nat, a: nat, b: nat)
    requires IsHeaderSpan(s, p, a, b)
    ensures a == SkipSpaces(s, p + 2) && b == SkipSpaces(s, a + 8)
  {
    assert MatchesFold(s[a + 0], "italiano"[0]);
    HasAtChar(s, b, "==", 0);
  }

  /** Where the header starting at `p` ends, if one starts there; it is unique. */
  function HeaderEnd(s: string, p: nat): (r: Option<nat>)
    ensures r.Some? ==> exists a: nat, b: nat :: IsHeaderSpan(s, p, a, b) && r.value == b + 2
    ensures forall a: nat, b: nat :: IsHeaderSpan(s, p, a, b) ==> r == Some(b + 2)
  {
    if p + 2 + 8 > |s| then None
    else
      var a := SkipSpaces(s, p + 2);
      var b := if a + 8 <= |s| then SkipSpaces(s, a + 8) else a + 8;
      assert forall a': nat, b': nat :: IsHeaderSpan(s, p, a', b') ==> a' == a && b' == b by {
        forall a': nat, b': nat | IsHeaderSpan(s, p, a', b')
          ensures a' == a && b' == b
        {
          HeaderSpanForced(s, p, a', b');
        }
      }
      if IsHeaderSpan(s, p, a, b) then Some(b + 2) else None
  }

  /** The first position at or after `i` where a header starts. */
  function FindHeader(s: string, i: nat): (r: Option<nat>)
    ensures r.Some? ==> i <= r.value && HeaderEnd(s, r.value).Some?
    ensures r.Some? ==> forall q: nat :: i <= q < r.value ==> HeaderEnd(s, q).None?
    ensures r.None? ==> forall q: nat :: i <= q ==> HeaderEnd(s, q).None?
    decreases |s| - i
  {
    if HeaderEnd(s, i).Some? then Some(i)
    else if i >= |s| then
      assert forall q: nat :: i <= q ==> HeaderEnd(s, q).None? by {
        forall q: nat | i <= q
          ensures HeaderEnd(s, q).None?
        {
          assert q + 2 + 8 > |s|;
        }
      }
      None
    else FindHeader(s, i + 1)
  }

  /** At `e` starts the next level-2 heading: `\n==`, not `=`, and a later `==`. */
  predicate IsSectionBreak(s: string, e: nat) {
    e + 4 <= |s| && s[e] == '\n' && HasAt(s, e + 1, "==") && s[e + 3] != '='
    && exists j :: e + 4 <= j < |s| && HasAt(s, j, "==")
  }

  /** Where the lazy body starting at `i` stops: the first section break, or the end. */
  function BodyEnd(s: string, i: nat): (r: nat)
    requires i <= |s|
    ensures i <= r <= |s|
    ensures forall k :: i <= k < r ==> !IsSectionBreak(s, k)
    ensures r < |s| ==> IsSectionBreak(s, r)
    decreases |s| - i
  {
    if i == |s| then i
    else if i + 4 <= |s| && s[i] == '\n' && HasAt(s, i + 1, "==") && s[i + 3] != '='
            && FindText(s, i + 4, "==").Some? then i
    else BodyEnd(s, i + 1)
  }

  /** The match of the section pattern: header start, body start, body end. */
  datatype Section = Section(start: nat, bodyStart: nat, bodyEnd: nat)

  /** The leftmost match of the section pattern in `w`. */
  function FindSection(w: string): (r: Option<Section>)
    ensures r.None? ==> forall p: nat :: HeaderEnd(w, p).None?
    ensures r.Some? ==>
              var sec := r.value;
              HeaderEnd(w, sec.start) == Some(sec.bodyStart)
              && (forall q: nat :: q < sec.start ==> HeaderEnd(w, q).None?)
              && sec.bodyStart <= sec.bodyEnd <= |w|
              && (forall k :: sec.bodyStart <= k < sec.bodyEnd ==> !IsSectionBreak(w, k))
              && (sec.bodyEnd == |w| || IsSectionBreak(w, sec.bodyEnd))
  {
    match FindHeader(w, 0)
    case None => None
    case Some(p) =>
      var h := HeaderEnd(w, p).value;
      Some(Section(p, h, BodyEnd(w, h)))
  }

  /** `m.group("body") if m else wikitext`: without an Italian header the whole wikitext is searched. */
  function ItalianBody(w: string): (r: string)
    ensures (forall p: nat :: HeaderEnd(w, p).None?) ==> r == w
    ensures FindSection(w).Some? ==>
              r == w[FindSection(w).value.bodyStart..FindSection(w).value.bodyEnd]
  {
    match FindSection(w)
    case Some(sec) => w[sec.bodyStart..sec.bodyEnd]
    case None => w
  }

  // ---------------------------------------------------------------------
  // The fetchers' `for` loops with an early `return`.

  /** The first index at or after `i` whose element satisfies `p`. */
  function FirstWhere<T>(xs: seq<T>, p: T -> bool, i: nat): (r: Option<nat>)
    requires i <= |xs|
    ensures r.Some? ==> i <= r.value < |xs| && p(xs[r.value])
    ensures r.Some? ==> forall j :: i <= j < r.value ==> !p(xs[j])
    ensures r.None? ==> forall j :: i <= j < |xs| ==> !p(xs[j])
    decreases |xs| - i
  {
    if i == |xs| then None
    else if p(xs[i]) then Some(i)
    else FirstWhere(xs, p, i + 1)
  }

  // ---------------------------------------------------------------------
  // Choosing the definition line.

  /** `ln.startswith("#") and not ln.startswith(("#:", "#*", "##"))`. */
  predicate IsDefinitionLine(ln: string) {
    |ln| >= 1 && ln[0] == '#' && !(|ln| >= 2 && ln[1] in {':', '*', '#'})
  }

  /** `first_sentence(strip_markup(ln.lstrip("#").strip()))`. */
  function CleanDefinition(ln: string): string {
    FirstSentence(StripMarkup(Strip(LStripChar(ln, '#'))), SentenceMin)
  }

  /** The line is a definition line whose cleaned form is long enough. */
  predicate Qualifies(ln: string) {
    IsDefinitionLine(ln) && |CleanDefinition(ln)| >= MinDefinition
  }

  /**
   * The loop over the lines of the body: the cleaned form of the first line
   * that qualifies; a definition line that cleans to something too short is
   * passed over.
   */
  function PickDefinition(lines: seq<string>): (r: Option<string>)
    ensures r.None? <==> forall i :: 0 <= i < |lines| ==> !Qualifies(lines[i])
    ensures r.Some? ==>
              exists i :: 0 <= i < |lines| && Qualifies(lines[i]) && r.value == CleanDefinition(lines[i])
                          && forall j :: 0 <= j < i ==> !Qualifies(lines[j])
    ensures r.Some? ==> |r.value| >= MinDefinition
  {
    match FirstWhere(lines, Qualifies, 0)
    case Some(i) => Some(CleanDefinition(lines[i]))
    case None => None
  }

  /** `[ln.strip() for ln in body.splitlines()]`. */
  function StrippedLines(body: string): (r: seq<string>)
    ensures |r| == |SplitLines(body)|
    ensures forall i :: 0 <= i < |r| ==> r[i] == Strip(SplitLines(body)[i])
  {
    var ls := SplitLines(body);
    seq(|ls|, i requires 0 <= i < |ls| => Strip(ls[i]))
  }

  /** First strategy: the definition line of the Italian section of the page's wikitext. */
  function FromWikitext(reply: ParseReply): (r: Option<string>)
    ensures r.Some? ==> reply.status == 200 && !reply.hasError && reply.wikitext.Some? && reply.wikitext.value != ""
    ensures r.Some? ==> |r.value| >= MinDefinition
    ensures reply.status == 200 && !reply.hasError && reply.wikitext.Some? && reply.wikitext.value != "" ==>
              r == PickDefinition(StrippedLines(ItalianBody(reply.wikitext.value)))
  {
    if reply.status == 200 && !reply.hasError && reply.wikitext.Some? && reply.wikitext.value != "" then
      PickDefinition(StrippedLines(ItalianBody(reply.wikitext.value)))
    else None
  }

  // ---------------------------------------------------------------------
  // Second strategy: the plain-text extracts.

  /** A line kept by the extract filter: not blank, and not starting with `=` before stripping. */
  predicate IsContentLine(l: string) {
    Strip(l) != [] && !(|l| >= 1 && l[0] == '=')
  }

  /** The first kept line of an extract, stripped (`lines[0]`). */
  function FirstContentLine(ls: seq<string>): (r: Option<string>)
    ensures r.None? <==> forall i :: 0 <= i < |ls| ==> !IsContentLine(ls[i])
    ensures r.Some? ==>
              exists i :: 0 <= i < |ls| && IsContentLine(ls[i]) && r.value == Strip(ls[i])
                          && forall j :: 0 <= j < i ==> !IsContentLine(ls[j])
  {
    match FirstWhere(ls, IsContentLine, 0)
    case Some(i) => Some(Strip(ls[i]))
    case None => None
  }

  /** `normalize_space(first_sentence(lines[0], min_len=20))`. */
  function LineCandidate(l: string): string {
    NormalizeSpace(FirstSentence(l, SentenceMin))
  }

  /** What one page's extract yields: its first kept line, cut to a sentence, if long enough. */
  function PageCandidate(ext: string): (r: Option<string>)
    ensures r.Some? ==> |r.value| >= MinDefinition
  {
    if ext == "" then None
    else
      match FirstContentLine(SplitLines(ext))
      case None => None
      case Some(l) =>
        var cand := LineCandidate(l);
        if |cand| >= MinDefinition then Some(cand) else None
  }

  /**
   * A page yields a candidate exactly when its extract is non-empty, has a
   * kept line, and that line cuts to a sentence of at least 12 characters;
   * the candidate is then that sentence.
   */
  lemma PageCandidateExactly(ext: string)
    ensures PageCandidate(ext).Some? <==>
              ext != "" && FirstContentLine(SplitLines(ext)).Some?
              && |LineCandidate(FirstContentLine(SplitLines(ext)).value)| >= MinDefinition
    ensures PageCandidate(ext).Some? ==>
              PageCandidate(ext).value == LineCandidate(FirstContentLine(SplitLines(ext)).value)
  {
  }

  predicate HasCandidate(ext: string) {
    PageCandidate(ext).Some?
  }

  /** The loop over the pages: the first page whose extract yields a candidate. */
  function PickPage(exts: seq<string>): (r: Option<string>)
    ensures r.None? <==> forall i :: 0 <= i < |exts| ==> !HasCandidate(exts[i])
    ensures r.Some? ==>
              exists i :: 0 <= i < |exts| && r == PageCandidate(exts[i])
                          && forall j :: 0 <= j < i ==> !HasCandidate(exts[j])
  {
    match FirstWhere(exts, HasCandidate, 0)
    case Some(i) => PageCandidate(exts[i])
    case None => None
  }

  /** Second strategy: the first page whose plain-text extract gives a long enough sentence. */
  function FromExtracts(reply: ExtractReply): (r: Option<string>)
    ensures r.Some? ==> reply.status == 200 && |r.value| >= MinDefinition
    ensures reply.status == 200 ==> r == PickPage(reply.extracts)
  {
    if reply.status == 200 then PickPage(reply.extracts) else None
  }

  /** `fetch_wiktionary_definition`: the wikitext strategy, then the extracts. */
  function Wiktionary(parse: ParseReply, extracts: ExtractReply): (r: Option<string>)
    ensures r.Some? ==> |r.value| >= MinDefinition
    ensures FromWikitext(parse).Some? ==> r == FromWikitext(parse)
    ensures FromWikitext(parse).None? ==> r == FromExtracts(extracts)
  {
    match FromWikitext(parse)
    case Some(d) => Some(d)
    case None => FromExtracts(extracts)
  }

  // ---------------------------------------------------------------------
  // Wikipedia.

  /** `fetch_wikipedia_summary`. */
  function Wikipedia(reply: SummaryReply): (r: Option<string>)
    ensures r.Some? ==> reply.status == 200 && reply.kind != "disambiguation"
    ensures r.Some? ==> |r.value| >= MinDefinition
    ensures r.Some? ==> reply.extract != "" || reply.description != ""
    ensures reply.status == 200 && reply.kind != "disambiguation" && reply.extract != "" ==>
              var c := FirstSentence(StripMarkup(reply.extract), SentenceMin);
              r == (if |c| >= MinDefinition then Some(c) else None)
    ensures reply.status == 200 && reply.kind != "disambiguation" && reply.extract == "" && reply.description != "" ==>
              var c := FirstSentence(StripMarkup(reply.description), SentenceMin);
              r == (if |c| >= MinDefinition then Some(c) else None)
  {
    if reply.status != 200 || reply.kind == "disambiguation" then None
    else
      var ext := if reply.extract != "" then reply.extract else reply.description;
      if ext == "" then None
      else
        var cand := FirstSentence(StripMarkup(ext), SentenceMin);
        if |cand| >= MinDefinition then Some(cand) else None
  }

  // ---------------------------------------------------------------------
  // Every definition a fetcher returns is normalized text.

  lemma PickDefinitionNormalized(lines: seq<string>)
    ensures PickDefinition(lines).Some? ==> IsNormalized(PickDefinition(lines).value)
  {
    if PickDefinition(lines).Some? {
      var i :| 0 <= i < |lines| && Qualifies(lines[i]) && PickDefinition(lines).value == CleanDefinition(lines[i])
               && forall j :: 0 <= j < i ==> !Qualifies(lines[j]);
      FirstSentenceNormalized(StripMarkup(Strip(LStripChar(lines[i], '#'))), SentenceMin);
    }
  }

  lemma PageCandidateNormalized(ext: string)
    ensures PageCandidate(ext).Some? ==> IsNormalized(PageCandidate(ext).value)
  {
    if ext != "" {
      match FirstContentLine(SplitLines(ext))
      case None =>
      case Some(l) => NormalizeSpaceNormalizes(FirstSentence(l, SentenceMin));
    }
  }

  lemma PickPageNormalized(exts: seq<string>)
    ensures PickPage(exts).Some? ==> IsNormalized(PickPage(exts).value)
  {
    if PickPage(exts).Some? {
      var i :| 0 <= i < |exts| && PickPage(exts) == PageCandidate(exts[i])
               && forall j :: 0 <= j < i ==> !HasCandidate(exts[j]);
      PageCandidateNormalized(exts[i]);
    }
  }

  /**
   * A Wiktionary definition is at least 12 characters of trimmed text with
   * single spaces between words.
   */
  lemma WiktionaryNormalized(parse: ParseReply, extracts: ExtractReply)
    ensures Wiktionary(parse, extracts).Some? ==>
              |Wiktionary(parse, extracts).value| >= MinDefinition && IsNormalized(Wiktionary(parse, extracts).value)
  {
    if parse.status == 200 && !parse.hasError && parse.wikitext.Some? && parse.wikitext.value != "" {
      PickDefinitionNormalized(StrippedLines(ItalianBody(parse.wikitext.value)));
    }
    PickPageNormalized(extracts.extracts);
  }

  /** A Wikipedia summary is at least 12 characters of trimmed text with single spaces between words. */
  lemma WikipediaNormalized(reply: SummaryReply)
    ensures Wikipedia(reply).Some? ==> |Wikipedia(reply).value| >= MinDefinition && IsNormalized(Wikipedia(reply).value)
  {
    var ext := if reply.extract != "" then reply.extract else reply.description;
    FirstSentenceNormalized(StripMarkup(ext), SentenceMin);
  }
}
