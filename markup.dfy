/**
 * `strip_markup`: the wikitext cleaner.  Each regular-expression pass is a
 * matcher that decides whether the pattern matches at one position (stated
 * against a predicate describing the matched span) and a scanner that
 * rewrites the text left to right, non-overlapping, as `re.sub` does.
 */
module Markup {
  import opened Wrappers
  import opened Text
  import opened Whitespace

  // ---------------------------------------------------------------------
  // Pass 1: `<ref[^>]*>.*?</ref>` (DOTALL) is deleted.

  /** `s[p..e]` is a `<ref ...>` opening tag followed, after its `>`, by a `</ref>` that ends at `e`. */
  predicate IsRefSpan(s: string, p: nat, e: nat) {
    p + 11 <= e <= |s| && HasAt(s, p, "<ref") && HasAt(s, e - 6, "</ref>")
    && exists g :: p + 4 <= g < e - 6 && s[g] == '>'
  }

  /** Where the lazy match of a reference element starting at `p` ends: the shortest such span. */
  function RefEnd(s: string, p: nat): (r: Option<nat>)
    requires p <= |s|
    ensures r.Some? ==> IsRefSpan(s, p, r.value)
    ensures forall e: nat :: IsRefSpan(s, p, e) ==> r.Some? && r.value <= e
  {
    if !HasAt(s, p, "<ref") then None
    else
      var g := Find(s, p + 4, {'>'});
      if g == |s| then None
      else
        match FindText(s, g + 1, "</ref>")
        case None => None
        case Some(c) => Some(c + 6)
  }

  /** `re.sub(r"<ref[^>]*>.*?</ref>", "", s, flags=re.DOTALL)`. */
  function RemoveRefs(s: string): string
    decreases |s|
  {
    if s == [] then []
    else if s[0] != '<' then [s[0]] + RemoveRefs(s[1..])
    else
      match RefEnd(s, 0)
      case Some(e) => RemoveRefs(s[e..])
      case None => [s[0]] + RemoveRefs(s[1..])
  }

  // ---------------------------------------------------------------------
  // Pass 2: an opening or closing tag of the listed elements, any case,
  // `</?(nowiki|ref|...|sub)[^>]*>`, becomes one space.

  const TagNames: seq<string> :=
    ["nowiki", "ref", "math", "code", "span", "div", "br", "small", "i", "b", "u", "sup", "sub"]

  /** One of the listed tag names starts at `q`, ignoring case. */
  predicate TagNameAt(s: string, q: nat) {
    exists n :: 0 <= n < |TagNames| && FoldAt(s, q, TagNames[n])
  }

  /** `s[p..e]` is `<`, an optional `/`, a listed tag name, then anything up to the first `>`. */
  predicate IsTagSpan(s: string, p: nat, e: nat) {
    p + 3 <= e <= |s| && s[p] == '<' && s[e - 1] == '>'
    && (forall k :: p < k < e - 1 ==> s[k] != '>')
    && (TagNameAt(s, p + 1) || (s[p + 1] == '/' && TagNameAt(s, p + 2)))
  }

  lemma TagNameIsNotBracket(s: string, q: nat)
    requires TagNameAt(s, q)
    ensures q < |s| && s[q] != '>'
  {
    var n :| 0 <= n < |TagNames| && FoldAt(s, q, TagNames[n]);
    assert MatchesFold(s[q + 0], TagNames[n][0]);
  }

  /** Where a tag match starting at `p` ends; the span is unique. */
  function TagEnd(s: string, p: nat): (r: Option<nat>)
    requires p <= |s|
    ensures r.Some? ==> IsTagSpan(s, p, r.value)
    ensures forall e: nat :: IsTagSpan(s, p, e) ==> r == Some(e)
  {
    if p < |s| && s[p] == '<'
       && (TagNameAt(s, p + 1) || (p + 1 < |s| && s[p + 1] == '/' && TagNameAt(s, p + 2)))
    then
      var g := Find(s, p + 1, {'>'});
      if g < |s| then
        assert p + 2 <= g by {
          if TagNameAt(s, p + 1) { TagNameIsNotBracket(s, p + 1); }
        }
        Some(g + 1)
      else None
    else None
  }

  /** `re.sub(r"</?(nowiki|...|sub)[^>]*>", " ", s, flags=re.IGNORECASE)`. */
  function ReplaceTags(s: string): string
    decreases |s|
  {
    if s == [] then []
    else if s[0] != '<' then [s[0]] + ReplaceTags(s[1..])
    else
      match TagEnd(s, 0)
      case Some(e) => " " + ReplaceTags(s[e..])
      case None => [s[0]] + ReplaceTags(s[1..])
  }

  // ---------------------------------------------------------------------
  // Pass 3: a template without nested braces, `\{\{[^{}]*\}\}`, becomes one
  // space.

  /** `s[p..e]` is `{{`, text free of braces, `}}`. */
  predicate IsTemplateSpan(s: string, p: nat, e: nat) {
    p + 4 <= e <= |s| && HasAt(s, p, "{{") && HasAt(s, e - 2, "}}")
    && forall k :: p + 2 <= k < e - 2 ==> s[k] != '{' && s[k] != '}'
  }

  /** Where a template match starting at `p` ends; the span is unique. */
  function TemplateEnd(s: string, p: nat): (r: Option<nat>)
    requires p <= |s|
    ensures r.Some? ==> IsTemplateSpan(s, p, r.value)
    ensures forall e: nat :: IsTemplateSpan(s, p, e) ==> r == Some(e)
  {
    if !HasAt(s, p, "{{") then None
    else
      var j := Find(s, p + 2, {'{', '}'});
      assert forall e: nat :: IsTemplateSpan(s, p, e) ==> j == e - 2 && s[j] == '}' && s[j + 1] == '}' by {
        forall e: nat | IsTemplateSpan(s, p, e)
          ensures j == e - 2 && s[j] == '}' && s[j + 1] == '}'
        {
          HasAtChar(s, e - 2, "}}", 0);
          HasAtChar(s, e - 2, "}}", 1);
        }
      }
      if j + 1 < |s| && s[j] == '}' && s[j + 1] == '}' then
        HasAtPair(s, j, '}', '}');
        Some(j + 2)
      else None
  }

  /** `re.sub(r"\{\{[^{}]*\}\}", " ", s)`. */
  function RemoveTemplates(s: string): string
    decreases |s|
  {
    if s == [] then []
    else if s[0] != '{' then [s[0]] + RemoveTemplates(s[1..])
    else
      match TemplateEnd(s, 0)
      case Some(e) => " " + RemoveTemplates(s[e..])
      case None => [s[0]] + RemoveTemplates(s[1..])
  }

  // ---------------------------------------------------------------------
  // Pass 4: a link `\[\[([^\[\]]+)\]\]` becomes its label: the text after
  // the first `|` of its body, or the whole body.

  /** `s[p..e]` is `[[`, a non-empty body free of square brackets, `]]`. */
  predicate IsLinkSpan(s: string, p: nat, e: nat) {
    p + 5 <= e <= |s| && HasAt(s, p, "[[") && HasAt(s, e - 2, "]]")
    && forall k :: p + 2 <= k < e - 2 ==> s[k] != '[' && s[k] != ']'
  }

  /** Where a link match starting at `p` ends; the span is unique. */
  function LinkEnd(s: string, p: nat): (r: Option<nat>)
    requires p <= |s|
    ensures r.Some? ==> IsLinkSpan(s, p, r.value)
    ensures forall e: nat :: IsLinkSpan(s, p, e) ==> r == Some(e)
  {
    if !HasAt(s, p, "[[") then None
    else
      var j := Find(s, p + 2, {'[', ']'});
      assert forall e: nat :: IsLinkSpan(s, p, e) ==> j == e - 2 && s[j] == ']' && s[j + 1] == ']' by {
        forall e: nat | IsLinkSpan(s, p, e)
          ensures j == e - 2 && s[j] == ']' && s[j + 1] == ']'
        {
          HasAtChar(s, e - 2, "]]", 0);
          HasAtChar(s, e - 2, "]]", 1);
        }
      }
      if p + 2 < j && j + 1 < |s| && s[j] == ']' && s[j + 1] == ']' then
        HasAtPair(s, j, ']', ']');
        Some(j + 2)
      else None
  }

  /** `body.split("|", 1)[1]` when the body holds a `|`, else the body. */
  function LinkLabel(body: string): (r: string)
    ensures (forall k :: 0 <= k < |body| ==> body[k] != '|') ==> r == body
    ensures forall k :: 0 <= k < |body| && body[k] == '|' && (forall j :: 0 <= j < k ==> body[j] != '|') ==>
              r == body[k + 1..]
  {
    var k := Find(body, 0, {'|'});
    if k < |body| then body[k + 1..] else body
  }

  /** `re.sub(r"\[\[([^\[\]]+)\]\]", _repl_link, s)`. */
  function ReplaceLinks(s: string): string
    decreases |s|
  {
    if s == [] then []
    else if s[0] != '[' then [s[0]] + ReplaceLinks(s[1..])
    else
      match LinkEnd(s, 0)
      case Some(e) => LinkLabel(s[2..e - 2]) + ReplaceLinks(s[e..])
      case None => [s[0]] + ReplaceLinks(s[1..])
  }

  // ---------------------------------------------------------------------
  // Pass 5: bold and italic quote runs.

  /** `s.replace("'''", "").replace("''", "")`. */
  function RemoveQuotes(s: string): string {
    ReplaceAll(ReplaceAll(s, "'''", ""), "''", "")
  }

  // ---------------------------------------------------------------------
  // Pass 7: `^\((?:[^()]{1,120})\)\s*` is deleted, at the start only.

  /** `s[..e]` is `(`, one to 120 characters free of parentheses, `)`. */
  predicate IsLeadingParen(s: string, e: nat) {
    3 <= e <= 122 && e <= |s| && s[0] == '(' && s[e - 1] == ')'
    && forall k :: 1 <= k < e - 1 ==> s[k] != '(' && s[k] != ')'
  }

  /** Where the parenthesis group at the start of `s` ends; the span is unique. */
  function ParenEnd(s: string): (r: Option<nat>)
    ensures r.Some? ==> IsLeadingParen(s, r.value)
    ensures forall e: nat :: IsLeadingParen(s, e) ==> r == Some(e)
  {
    if s == [] || s[0] != '(' then None
    else
      var j := Find(s, 1, {'(', ')'});
      if 2 <= j <= 121 && j < |s| && s[j] == ')' then Some(j + 1) else None
  }

  /** `re.sub(r"^\((?:[^()]{1,120})\)\s*", "", s)`. */
  function DropLeadingParen(s: string): string {
    match ParenEnd(s)
    case Some(e) => TrimLeft(s[e..])
    case None => s
  }

  /**
   * `strip_markup`: the seven passes in order (HTML entities are not
   * decoded); the output is trimmed, with single spaces between words.
   */
  function StripMarkup(text: string): (r: string)
    ensures IsNormalized(r)
  {
    var t := RemoveQuotes(ReplaceLinks(RemoveTemplates(ReplaceTags(RemoveRefs(text)))));
    NormalizeSpaceNormalizes(t);
    DropLeadingParenNormalized(NormalizeSpace(t));
    DropLeadingParen(NormalizeSpace(t))
  }

  // ---------------------------------------------------------------------
  // What each pass does to a text: characters that cannot start a match are
  // copied, and a matched span is rewritten as a whole.

  /** Text without `<` passes through the reference pass unchanged. */
  lemma {:induction false} RemoveRefsSkips(a: string, x: string)
    requires forall k :: 0 <= k < |a| ==> a[k] != '<'
    ensures RemoveRefs(a + x) == a + RemoveRefs(x)
  {
    if a == [] {
      assert a + x == x;
    } else {
      calc {
        RemoveRefs(a + x);
        { assert (a + x)[0] == a[0]; }
        [a[0]] + RemoveRefs((a + x)[1..]);
        { assert (a + x)[1..] == a[1..] + x; }
        [a[0]] + RemoveRefs(a[1..] + x);
        { RemoveRefsSkips(a[1..], x); }
        [a[0]] + (a[1..] + RemoveRefs(x));
        { ConsAppend(a, RemoveRefs(x)); }
        a + RemoveRefs(x);
      }
    }
  }

  lemma RefSpanExtends(t: string, c: string)
    requires IsRefSpan(t, 0, |t|)
    ensures IsRefSpan(t + c, 0, |t|)
  {
    HasAtExtend(t, c, 0, "<ref");
    HasAtExtend(t, c, |t| - 6, "</ref>");
    var g :| 4 <= g < |t| - 6 && t[g] == '>';
    assert (t + c)[g] == '>';
  }

  /** A reference element whose only `</ref>` is its closing tag is matched exactly. */
  lemma RefEndOnElement(t: string, c: string)
    requires IsRefSpan(t, 0, |t|)
    requires forall k :: 0 <= k < |t| - 6 ==> !HasAt(t, k, "</ref>")
    ensures RefEnd(t + c, 0) == Some(|t|)
  {
    RefSpanExtends(t, c);
    var e := RefEnd(t + c, 0).value;
    if e < |t| {
      HasAtShrink(t, c, e - 6, "</ref>");
    }
  }

  /**
   * A `<ref ...>...</ref>` element, after text without `<`, is deleted as a
   * whole, whatever it holds.
   */
  lemma RefRemoved(a: string, t: string, c: string)
    requires forall k :: 0 <= k < |a| ==> a[k] != '<'
    requires IsRefSpan(t, 0, |t|)
    requires forall k :: 0 <= k < |t| - 6 ==> !HasAt(t, k, "</ref>")
    ensures RemoveRefs(a + t + c) == a + RemoveRefs(c)
  {
    assert a + t + c == a + (t + c);
    RemoveRefsSkips(a, t + c);
    RefEndOnElement(t, c);
    HasAtChar(t, 0, "<ref", 0);
    assert (t + c)[0] == '<';
    assert (t + c)[|t|..] == c;
  }

  /** Text without `<` passes through the tag pass unchanged. */
  lemma {:induction false} ReplaceTagsSkips(a: string, x: string)
    requires forall k :: 0 <= k < |a| ==> a[k] != '<'
    ensures ReplaceTags(a + x) == a + ReplaceTags(x)
  {
    if a == [] {
      assert a + x == x;
    } else {
      calc {
        ReplaceTags(a + x);
        { assert (a + x)[0] == a[0]; }
        [a[0]] + ReplaceTags((a + x)[1..]);
        { assert (a + x)[1..] == a[1..] + x; }
        [a[0]] + ReplaceTags(a[1..] + x);
        { ReplaceTagsSkips(a[1..], x); }
        [a[0]] + (a[1..] + ReplaceTags(x));
        { ConsAppend(a, ReplaceTags(x)); }
        a + ReplaceTags(x);
      }
    }
  }

  lemma TagNameExtends(t: string, c: string, q: nat)
    requires TagNameAt(t, q)
    ensures TagNameAt(t + c, q)
  {
    var n :| 0 <= n < |TagNames| && FoldAt(t, q, TagNames[n]);
    FoldAtExtend(t, c, q, TagNames[n]);
  }

  lemma TagSpanExtends(t: string, c: string)
    requires IsTagSpan(t, 0, |t|)
    ensures IsTagSpan(t + c, 0, |t|)
  {
    var s := t + c;
    assert s[0] == '<' && s[1] == t[1] && s[|t| - 1] == '>';
    assert forall k :: 0 < k < |t| - 1 ==> s[k] == t[k];
    if TagNameAt(t, 1) {
      TagNameExtends(t, c, 1);
    } else {
      TagNameExtends(t, c, 2);
    }
  }

  /**
   * An opening or closing tag of a listed element, in any case, after text
   * without `<`, becomes one space.
   */
  lemma TagReplaced(a: string, t: string, c: string)
    requires forall k :: 0 <= k < |a| ==> a[k] != '<'
    requires IsTagSpan(t, 0, |t|)
    ensures ReplaceTags(a + t + c) == a + " " + ReplaceTags(c)
  {
    assert a + t + c == a + (t + c);
    ReplaceTagsSkips(a, t + c);
    TagSpanExtends(t, c);
    assert (t + c)[0] == '<';
    assert (t + c)[|t|..] == c;
  }

  /** Text without `{` passes through the template pass unchanged. */
  lemma {:induction false} RemoveTemplatesSkips(a: string, x: string)
    requires forall k :: 0 <= k < |a| ==> a[k] != '{'
    ensures RemoveTemplates(a + x) == a + RemoveTemplates(x)
  {
    if a == [] {
      assert a + x == x;
    } else {
      calc {
        RemoveTemplates(a + x);
        { assert (a + x)[0] == a[0]; }
        [a[0]] + RemoveTemplates((a + x)[1..]);
        { assert (a + x)[1..] == a[1..] + x; }
        [a[0]] + RemoveTemplates(a[1..] + x);
        { RemoveTemplatesSkips(a[1..], x); }
        [a[0]] + (a[1..] + RemoveTemplates(x));
        { ConsAppend(a, RemoveTemplates(x)); }
        a + RemoveTemplates(x);
      }
    }
  }

  lemma TemplateSpanOf(body: string, c: string)
    requires forall k :: 0 <= k < |body| ==> body[k] != '{' && body[k] != '}'
    ensures IsTemplateSpan("{{" + body + "}}" + c, 0, |body| + 4)
  {
    var s := "{{" + body + "}}" + c;
    assert s[..2] == "{{";
    assert s[|body| + 2..|body| + 4] == "}}";
    assert forall k :: 2 <= k < |body| + 2 ==> s[k] == body[k - 2];
  }

  /**
   * A template with no brace inside, after text without `{`, becomes one
   * space; templates nested in templates are not removed in one pass.
   */
  lemma TemplateReplaced(a: string, body: string, c: string)
    requires forall k :: 0 <= k < |a| ==> a[k] != '{'
    requires forall k :: 0 <= k < |body| ==> body[k] != '{' && body[k] != '}'
    ensures RemoveTemplates(a + ("{{" + body + "}}" + c)) == a + " " + RemoveTemplates(c)
  {
    var s := "{{" + body + "}}" + c;
    RemoveTemplatesSkips(a, s);
    TemplateSpanOf(body, c);
    assert s[0] == '{';
    assert s[|body| + 4..] == c;
  }

  /** Text without `[` passes through the link pass unchanged. */
  lemma {:induction false} ReplaceLinksSkips(a: string, x: string)
    requires forall k :: 0 <= k < |a| ==> a[k] != '['
    ensures ReplaceLinks(a + x) == a + ReplaceLinks(x)
  {
    if a == [] {
      assert a + x == x;
    } else {
      calc {
        ReplaceLinks(a + x);
        { assert (a + x)[0] == a[0]; }
        [a[0]] + ReplaceLinks((a + x)[1..]);
        { assert (a + x)[1..] == a[1..] + x; }
        [a[0]] + ReplaceLinks(a[1..] + x);
        { ReplaceLinksSkips(a[1..], x); }
        [a[0]] + (a[1..] + ReplaceLinks(x));
        { ConsAppend(a, ReplaceLinks(x)); }
        a + ReplaceLinks(x);
      }
    }
  }

  lemma LinkSpanOf(body: string, c: string)
    requires body != []
    requires forall k :: 0 <= k < |body| ==> body[k] != '[' && body[k] != ']'
    ensures IsLinkSpan("[[" + body + "]]" + c, 0, |body| + 4)
  {
    var s := "[[" + body + "]]" + c;
    assert s[..2] == "[[";
    assert s[|body| + 2..|body| + 4] == "]]";
    assert forall k :: 2 <= k < |body| + 2 ==> s[k] == body[k - 2];
  }

  lemma LinkAtFront(body: string, c: string)
    requires body != []
    requires forall k :: 0 <= k < |body| ==> body[k] != '[' && body[k] != ']'
    ensures ReplaceLinks("[[" + body + "]]" + c) == LinkLabel(body) + ReplaceLinks(c)
  {
    var s := "[[" + body + "]]" + c;
    var e := |body| + 4;
    LinkSpanOf(body, c);
    assert LinkEnd(s, 0) == Some(e);
    assert s[0] == '[';
    assert s[2..e - 2] == body;
    assert s[e..] == c;
  }

  /**
   * A link `[[target|label]]` or `[[target]]`, after text without `[`,
   * becomes its label (the text after the first `|`) or its target.
   */
  lemma LinkReplaced(a: string, body: string, c: string)
    requires forall k :: 0 <= k < |a| ==> a[k] != '['
    requires body != []
    requires forall k :: 0 <= k < |body| ==> body[k] != '[' && body[k] != ']'
    ensures ReplaceLinks(a + ("[[" + body + "]]" + c)) == a + LinkLabel(body) + ReplaceLinks(c)
  {
    var s := "[[" + body + "]]" + c;
    calc {
      ReplaceLinks(a + s);
      { ReplaceLinksSkips(a, s); }
      a + ReplaceLinks(s);
      { LinkAtFront(body, c); }
      a + (LinkLabel(body) + ReplaceLinks(c));
    }
  }

  // ---------------------------------------------------------------------
  // The quote pass.

  /** A run of `n` apostrophes. */
  function Quotes(n: nat): (r: string)
    ensures |r| == n && forall k :: 0 <= k < n ==> r[k] == '\''
  {
    seq(n, _ => '\'')
  }

  /** No two apostrophes are adjacent in `s`. */
  predicate NoDoubleQuote(s: string) {
    forall k :: 0 <= k < |s| - 1 ==> !(s[k] == '\'' && s[k + 1] == '\'')
  }

  /** The characters of `s` other than apostrophes, in order. */
  function DropQuotes(s: string): string {
    if s == [] then [] else (if s[0] == '\'' then [] else [s[0]]) + DropQuotes(s[1..])
  }

  /** What is left of `n` after taking away `m` as often as possible. */
  function Rem(n: nat, m: nat): (r: nat)
    requires m >= 1
    ensures r < m
  {
    if n >= m then Rem(n - m, m) else n
  }

  lemma {:induction false} RemThree(n: nat)
    ensures Rem(n, 3) == n % 3
  {
    if n >= 3 {
      RemThree(n - 3);
    }
  }

  lemma {:induction false} RemTwo(n: nat)
    ensures Rem(n, 2) == n % 2
  {
    if n >= 2 {
      RemTwo(n - 2);
    }
  }

  /**
   * A run of `n` apostrophes followed by text that does not start with one:
   * the run keeps what is left of `n` after deleting runs of `m`, and the
   * text is scanned on its own.
   */
  lemma {:induction false} RunThenText(n: nat, m: nat, c: string)
    requires m >= 1
    requires c == [] || c[0] != '\''
    ensures ReplaceAll(Quotes(n) + c, Quotes(m), "") == Quotes(Rem(n, m)) + ReplaceAll(c, Quotes(m), "")
    decreases n
  {
    if n == 0 {
      assert Quotes(n) + c == c;
    } else if n >= m {
      RunThenText(n - m, m, c);
      LongRunStep(n, m, c);
    } else {
      RunThenText(n - 1, m, c);
      ShortRunStep(n, m, c);
    }
  }

  lemma LongRunStep(n: nat, m: nat, c: string)
    requires 1 <= m <= n
    requires ReplaceAll(Quotes(n - m) + c, Quotes(m), "") == Quotes(Rem(n - m, m)) + ReplaceAll(c, Quotes(m), "")
    ensures ReplaceAll(Quotes(n) + c, Quotes(m), "") == Quotes(Rem(n, m)) + ReplaceAll(c, Quotes(m), "")
  {
    RunStartsWith(n, m, c);
  }

  lemma ShortRunStep(n: nat, m: nat, c: string)
    requires 0 < n < m
    requires c == [] || c[0] != '\''
    requires ReplaceAll(Quotes(n - 1) + c, Quotes(m), "") == Quotes(Rem(n - 1, m)) + ReplaceAll(c, Quotes(m), "")
    ensures ReplaceAll(Quotes(n) + c, Quotes(m), "") == Quotes(Rem(n, m)) + ReplaceAll(c, Quotes(m), "")
  {
    var x := Quotes(n) + c;
    var rc := ReplaceAll(c, Quotes(m), "");
    assert Rem(n, m) == n && Rem(n - 1, m) == n - 1;
    RunTooShort(n, m, c);
    assert ReplaceAll(x, Quotes(m), "") == [x[0]] + ReplaceAll(x[1..], Quotes(m), "");
    var q := Quotes(n);
    assert q[1..] == Quotes(n - 1) && q[0] == x[0];
    ConsAppend(q, rc);
  }

  lemma RunStartsWith(n: nat, m: nat, c: string)
    requires 1 <= m <= n
    ensures HasAt(Quotes(n) + c, 0, Quotes(m))
    ensures (Quotes(n) + c)[m..] == Quotes(n - m) + c
  {
    assert (Quotes(n) + c)[0..m] == Quotes(m);
  }

  lemma RunTooShort(n: nat, m: nat, c: string)
    requires 0 < n < m
    requires c == [] || c[0] != '\''
    ensures !HasAt(Quotes(n) + c, 0, Quotes(m))
    ensures (Quotes(n) + c)[0] == '\'' && (Quotes(n) + c)[1..] == Quotes(n - 1) + c
  {
    var x := Quotes(n) + c;
    if HasAt(x, 0, Quotes(m)) {
      HasAtChar(x, 0, Quotes(m), n);
      assert false;
    }
  }

  /**
   * Deleting runs of apostrophes distributes over a split point that no
   * run crosses: `x` does not end with an apostrophe.
   */
  lemma {:induction false} ReplaceQuotesAppend(x: string, y: string, m: nat)
    requires m >= 1
    requires x == [] || x[|x| - 1] != '\''
    ensures ReplaceAll(x + y, Quotes(m), "") == ReplaceAll(x, Quotes(m), "") + ReplaceAll(y, Quotes(m), "")
    decreases |x|
  {
    if x == [] {
      assert x + y == y;
    } else if HasAt(x + y, 0, Quotes(m)) {
      if m >= |x| {
        HasAtChar(x + y, 0, Quotes(m), |x| - 1);
        assert false;
      }
      HasAtShrink(x, y, 0, Quotes(m));
      assert (x + y)[m..] == x[m..] + y;
      ReplaceQuotesAppend(x[m..], y, m);
    } else {
      if HasAt(x, 0, Quotes(m)) {
        HasAtExtend(x, y, 0, Quotes(m));
        assert false;
      }
      assert (x + y)[1..] == x[1..] + y;
      ReplaceQuotesAppend(x[1..], y, m);
    }
  }

  /** Text that ends with something other than an apostrophe still does after the deletion. */
  lemma {:induction false} ReplaceQuotesKeepsLast(x: string, m: nat)
    requires m >= 1
    requires x != [] && x[|x| - 1] != '\''
    ensures var r := ReplaceAll(x, Quotes(m), ""); r != [] && r[|r| - 1] == x[|x| - 1]
    decreases |x|
  {
    if HasAt(x, 0, Quotes(m)) {
      if m >= |x| {
        HasAtChar(x, 0, Quotes(m), |x| - 1);
        assert false;
      }
      ReplaceQuotesKeepsLast(x[m..], m);
    } else if |x| > 1 {
      ReplaceQuotesKeepsLast(x[1..], m);
    }
  }

  /** Text that starts with something other than an apostrophe still does after the deletion. */
  lemma ReplaceQuotesKeepsFirst(c: string, m: nat)
    requires m >= 1
    requires c != [] && c[0] != '\''
    ensures var r := ReplaceAll(c, Quotes(m), ""); r != [] && r[0] == c[0]
  {
    if HasAt(c, 0, Quotes(m)) {
      HasAtChar(c, 0, Quotes(m), 0);
      assert false;
    }
  }

  /** One pass of the quote removal over text, a run of `n` apostrophes, and text. */
  lemma QuotePassInText(a: string, n: nat, c: string, m: nat)
    requires m >= 1
    requires a == [] || a[|a| - 1] != '\''
    requires c == [] || c[0] != '\''
    ensures ReplaceAll(a + Quotes(n) + c, Quotes(m), "")
            == ReplaceAll(a, Quotes(m), "") + Quotes(Rem(n, m)) + ReplaceAll(c, Quotes(m), "")
  {
    assert a + Quotes(n) + c == a + (Quotes(n) + c);
    ReplaceQuotesAppend(a, Quotes(n) + c, m);
    RunThenText(n, m, c);
  }

  /**
   * The quote pass over a run of `n` apostrophes between text that neither
   * ends nor starts with one: the text on each side is cleaned on its own
   * and the run keeps `(n % 3) % 2` apostrophes.
   */
  lemma QuoteRunInText(a: string, n: nat, c: string)
    requires a == [] || a[|a| - 1] != '\''
    requires c == [] || c[0] != '\''
    ensures RemoveQuotes(a + Quotes(n) + c) == RemoveQuotes(a) + Quotes((n % 3) % 2) + RemoveQuotes(c)
  {
    var a3 := ReplaceAll(a, Quotes(3), "");
    var c3 := ReplaceAll(c, Quotes(3), "");
    var r3 := ReplaceAll(a + Quotes(n) + c, Quotes(3), "");
    assert r3 == a3 + Quotes(n % 3) + c3 by {
      QuotePassInText(a, n, c, 3);
      RemThree(n);
    }
    assert a3 == [] || a3[|a3| - 1] != '\'' by {
      if a != [] {
        ReplaceQuotesKeepsLast(a, 3);
      }
    }
    assert c3 == [] || c3[0] != '\'' by {
      if c != [] {
        ReplaceQuotesKeepsFirst(c, 3);
      }
    }
    assert ReplaceAll(r3, Quotes(2), "")
           == ReplaceAll(a3, Quotes(2), "") + Quotes((n % 3) % 2) + ReplaceAll(c3, Quotes(2), "") by {
      QuotePassInText(a3, n % 3, c3, 2);
      RemTwo(n % 3);
    }
    assert "'''" == Quotes(3);
    assert "''" == Quotes(2);
  }

  /**
   * A run of `n` apostrophes keeps `(n % 3) % 2` of them: bold `'''` and
   * italic `''` markers vanish, and an odd leftover apostrophe stays.
   */
  lemma QuoteRunRemoved(n: nat)
    ensures RemoveQuotes(Quotes(n)) == Quotes((n % 3) % 2)
  {
    QuoteRunInText([], n, []);
    assert [] + Quotes(n) + [] == Quotes(n);
    assert RemoveQuotes([]) == [];
  }

  /** After deleting `''` left to right, no two apostrophes are adjacent. */
  lemma {:induction false} PairsGone(x: string)
    ensures NoDoubleQuote(ReplaceAll(x, "''", ""))
    ensures var r := ReplaceAll(x, "''", ""); r != [] && r[0] == '\'' ==> x != [] && x[0] == '\''
    decreases |x|
  {
    if x == [] {
    } else if HasAt(x, 0, "''") {
      PairsGone(x[2..]);
      HasAtChar(x, 0, "''", 0);
    } else {
      PairsGone(x[1..]);
      var r := ReplaceAll(x, "''", "");
      var r' := ReplaceAll(x[1..], "''", "");
      assert r == [x[0]] + r';
      forall k | 0 <= k < |r| - 1
        ensures !(r[k] == '\'' && r[k + 1] == '\'')
      {
        if k > 0 {
          assert r[k] == r'[k - 1] && r[k + 1] == r'[k];
        }
      }
    }
  }

  /** The quote pass leaves no `''` behind. */
  lemma RemoveQuotesLeavesNoPair(s: string)
    ensures NoDoubleQuote(RemoveQuotes(s))
  {
    PairsGone(ReplaceAll(s, "'''", ""));
  }

  lemma {:induction false} DropQuotesSkip(x: string, j: nat)
    requires j <= |x|
    requires forall k :: 0 <= k < j ==> x[k] == '\''
    ensures DropQuotes(x) == DropQuotes(x[j..])
    decreases j
  {
    if j > 0 {
      DropQuotesSkip(x[1..], j - 1);
      assert x[1..][j - 1..] == x[j..];
    }
  }

  /** Deleting apostrophe runs keeps every other character, in order. */
  lemma {:induction false} ReplaceRunKeepsText(x: string, m: nat)
    requires m >= 1
    ensures DropQuotes(ReplaceAll(x, Quotes(m), "")) == DropQuotes(x)
    decreases |x|
  {
    if x == [] {
    } else if HasAt(x, 0, Quotes(m)) {
      ReplaceRunKeepsText(x[m..], m);
      forall k | 0 <= k < m
        ensures x[k] == '\''
      {
        HasAtChar(x, 0, Quotes(m), k);
      }
      DropQuotesSkip(x, m);
      var r' := ReplaceAll(x[m..], Quotes(m), "");
      assert ReplaceAll(x, Quotes(m), "") == "" + r';
      assert "" + r' == r';
    } else {
      ReplaceRunKeepsText(x[1..], m);
      var r' := ReplaceAll(x[1..], Quotes(m), "");
      assert ReplaceAll(x, Quotes(m), "") == [x[0]] + r';
      assert ([x[0]] + r')[1..] == r';
    }
  }

  /** The quote pass removes apostrophes only. */
  lemma RemoveQuotesKeepsText(s: string)
    ensures DropQuotes(RemoveQuotes(s)) == DropQuotes(s)
  {
    assert "'''" == Quotes(3);
    assert "''" == Quotes(2);
    ReplaceRunKeepsText(s, 3);
    ReplaceRunKeepsText(ReplaceAll(s, "'''", ""), 2);
  }

  // ---------------------------------------------------------------------
  // The leading parenthesis pass.

  /**
   * A parenthesis of one to 120 characters free of parentheses at the very
   * start is deleted together with the whitespace after it.
   */
  lemma ParenRemoved(w: string, rest: string)
    requires 1 <= |w| <= 120
    requires forall k :: 0 <= k < |w| ==> w[k] != '(' && w[k] != ')'
    ensures DropLeadingParen("(" + w + ")" + rest) == TrimLeft(rest)
  {
    var s := "(" + w + ")" + rest;
    assert forall k :: 1 <= k < |w| + 1 ==> s[k] == w[k - 1];
    assert IsLeadingParen(s, |w| + 2);
    assert s[|w| + 2..] == rest;
  }

  /** An empty parenthesis, or one longer than 120 characters, is kept. */
  lemma ParenKept(w: string, rest: string)
    requires |w| == 0 || |w| > 120
    requires forall k :: 0 <= k < |w| ==> w[k] != '(' && w[k] != ')'
    ensures DropLeadingParen("(" + w + ")" + rest) == "(" + w + ")" + rest
  {
    var s := "(" + w + ")" + rest;
    assert forall k :: 1 <= k < |w| + 1 ==> s[k] == w[k - 1];
    assert s[|w| + 1] == ')';
    assert Find(s, 1, {'(', ')'}) == |w| + 1;
  }

  /** A suffix of a normalized text that starts with a non-space is normalized. */
  lemma SuffixNormalized(n: string, off: nat)
    requires IsNormalized(n) && off <= |n|
    requires off == |n| || !IsSpace(n[off])
    ensures IsNormalized(n[off..])
  {
    var r := n[off..];
    forall i | 0 <= i < |r| && IsSpace(r[i])
      ensures r[i] == ' ' && 0 < i < |r| - 1 && !IsSpace(r[i + 1])
    {
      assert r[i] == n[off + i];
      assert i + 1 < |r| ==> r[i + 1] == n[off + i + 1];
    }
  }

  /** Dropping a leading parenthesis keeps a normalized text normalized. */
  lemma DropLeadingParenNormalized(n: string)
    requires IsNormalized(n)
    ensures IsNormalized(DropLeadingParen(n))
  {
    match ParenEnd(n)
    case None =>
    case Some(e) =>
      var r := TrimLeft(n[e..]);
      var off := |n| - |r|;
      assert r == n[off..];
      SuffixNormalized(n, off);
  }
}
