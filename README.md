# build_defs — a verified model

`build_defs.py` builds an Italian word → definition map. For each word of a
JSON array it asks Italian Wiktionary for a definition line and falls back to
the Wikipedia page summary. It cleans what it gets, removes a few redundant
lead-ins and stores the result. This project models the deterministic core of
that job:

- **`text.dfy`** (module `Text`): the character classes and `str` operations
  the cleaners use. These are `\s` / `str.isspace`, `\w`, `re.IGNORECASE`
  letter matching, `strip`, `lstrip`, `lstrip("#")`, `splitlines` and
  `replace`.
- **`whitespace.dfy`** (`Whitespace`): `normalize_space`. It is proved equal
  to "split into words, join with one space", and its output is proved
  normalized (`IsNormalized`: trimmed, every whitespace character a single
  space between two words).
- **`markup.dfy`** (`Markup`): `strip_markup`. Each `re.sub` pass is a
  matcher and a scanner:
  - the matcher is specified against a predicate that describes the span the
    pattern matches, and proved to return the unique span, or the shortest
    span for the lazy `<ref>` pattern;
  - the scanner rewrites left to right without overlap, as `re.sub` does;
  - lemmas state what each pass does to a reference element, a tag, a
    template, a link, a run of apostrophes and a leading parenthesis.
- **`sentence.dfy`** (`Sentence`): `first_sentence`. It returns a prefix of
  the normalized text cut at the first sentence end, or the whole text.
- **`postfix.dfy`** (`PostFix`): the post-fix in `build_defs`. It drops a
  leading `In …istica,` label and a leading copula `E`/`È`, then normalizes
  the whitespace. The `E'` alternative of the copula pattern can never match:
  `\b` between `'` and a space does not hold. That alternative is modelled as
  written and proved dead.
- **`fetchers.dfy`** (`Fetchers`): the selection logic of
  `fetch_wiktionary_definition` and `fetch_wikipedia_summary`. HTTP replies
  are records holding the status and the JSON fields the code reads. It
  covers:
  - the `Italiano` section search;
  - the definition-line loop, which passes over lines that clean to fewer
    than 12 characters;
  - the plain-extract fallback;
  - the disambiguation check.

  Every definition either fetcher returns is proved to have at least 12
  characters and to be normalized.
- **`pipeline.dfy`** (`Pipeline`): the `build_defs` loop, as a method over
  the map `out`, the counter `updated` and the log of file writes.
  - The method is proved equal to a fold of one `Step` per array element.
  - Lemmas over that fold give the keys, the values, the `updated` count,
    exactly when checkpoints are written, and idempotence of a second run in
    append mode.
  - The network is a parameter `net` that maps a term to the replies its
    three requests get.

The model follows the code in these details:

- A checkpoint is written after element `idx` when `(idx + 1) % save_every`
  is 0, counting raw array positions, and only when that element was looked
  up. A skipped element never triggers one, so checkpoints do not fall every
  `save_every` processed terms.
- The checkpoint test is Python's truth test on `save_every`, so a negative
  `save_every` also checkpoints, at the positions its absolute value divides.
- A string made only of whitespace is not skipped. Its key is `""`.

## Model

| member | source | states |
|---|---|---|
| Text.Strip | build_defs.py:137 | `str.strip()`: the result is the input minus its leading and trailing whitespace, and neither end of it is whitespace |
| Text.LStripChar | build_defs.py:140 | `lstrip("#")`: the result is a suffix, everything dropped is `#`, and the result does not start with `#` |
| Text.SplitLinesHaveNoBreaks | build_defs.py:137 | no line that `splitlines()` returns contains a line boundary |
| Text.SplitLinesKeepsText | build_defs.py:137 | the concatenated lines of `splitlines()` are the text with its line boundaries taken out |
| Text.SplitLinesRejoin | build_defs.py:137 | the text is its `splitlines()` lines, each followed by one boundary (`\r\n` or one line-break character), except that the last line may end the text without one; a lone `\r` boundary is never followed by the `\n` of an empty next line; a last line without a boundary after it is non-empty, so a trailing boundary opens no new line and the empty text has no lines |
| Whitespace.NormalizeSpaceIsJoinWords | build_defs.py:29-32 | collapsing `\s+` to one space and stripping equals joining the whitespace-separated words with single spaces |
| Whitespace.NormalizeSpaceNormalizes | build_defs.py:29-32 | the output has no leading or trailing whitespace, and every whitespace character is a single space between two non-spaces |
| Whitespace.NormalizeSpaceKeepsNormalized | build_defs.py:29-32 | collapsing and stripping leave normalized text unchanged, so normalizing twice is normalizing once (without unescaping) |
| Markup.RefEnd | build_defs.py:43 | the lazy `<ref[^>]*>.*?</ref>` match at a position is a reference span, and it is the shortest reference span there |
| Markup.RefRemoved | build_defs.py:43 | a `<ref …>…</ref>` element, after text without `<`, is deleted whole and the text before it is kept |
| Markup.TagEnd | build_defs.py:44 | the tag pattern match at a position is a `<`, an optional `/`, a listed name in any case, and text up to the first `>`; that span is unique |
| Markup.TagReplaced | build_defs.py:44 | an opening or closing listed tag, after text without `<`, becomes one space |
| Markup.TemplateEnd | build_defs.py:46 | the `\{\{[^{}]*\}\}` match at a position is `{{`, brace-free text, `}}`, and it is unique |
| Markup.TemplateReplaced | build_defs.py:46 | a brace-free template, after text without `{`, becomes one space |
| Markup.LinkEnd | build_defs.py:53 | the `\[\[([^\[\]]+)\]\]` match at a position is `[[`, a non-empty bracket-free body, `]]`, and it is unique |
| Markup.LinkLabel | build_defs.py:48-52 | a body without `\|` is returned whole; otherwise the text after the first `\|` is returned |
| Markup.LinkReplaced | build_defs.py:48-53 | `[[t\|l]]` becomes the text after its first `\|`, and `[[t]]` becomes `t`, after text without `[` |
| Markup.RunThenText | build_defs.py:55 | deleting every run of `m` apostrophes from a run of `n` followed by text that does not start with one leaves `n mod m` apostrophes, then the text with its own runs deleted |
| Markup.ReplaceQuotesAppend | build_defs.py:55 | deleting runs of apostrophes distributes over a split point whose left side does not end with an apostrophe |
| Markup.QuoteRunInText | build_defs.py:55 | inside text, a run of `n` apostrophes that neither follows nor precedes another apostrophe keeps `(n mod 3) mod 2` of them, and the text on each side is cleaned as if on its own |
| Markup.QuoteRunRemoved | build_defs.py:55 | the quote pass turns a run of `n` apostrophes into `(n mod 3) mod 2` apostrophes |
| Markup.RemoveQuotesLeavesNoPair | build_defs.py:55 | after the quote pass no two apostrophes are adjacent |
| Markup.RemoveQuotesKeepsText | build_defs.py:55 | the quote pass removes apostrophes only: every other character is kept, in order |
| Markup.ParenEnd | build_defs.py:59 | the leading-parenthesis match is `(`, 1 to 120 characters without parentheses, `)`, at position 0 only, and it is unique |
| Markup.ParenRemoved | build_defs.py:59 | a leading parenthesis of 1 to 120 parenthesis-free characters is deleted together with the whitespace after it |
| Markup.ParenKept | build_defs.py:59 | an empty leading parenthesis, or one longer than 120 characters, is kept |
| Markup.DropLeadingParenNormalized | build_defs.py:57-59 | deleting the leading parenthesis keeps normalized text normalized |
| Markup.StripMarkup | build_defs.py:34-60 | the output of `strip_markup` is trimmed, with single spaces between words |
| Sentence.SentenceEndFrom | build_defs.py:68 | finds the first `.`, `!` or `?` at index 1 or later that is followed by whitespace or the end; none exists when it returns nothing |
| Sentence.CutFirstSentence | build_defs.py:66-71 | the result is a prefix of the normalized text. It is either the whole text, or a prefix of at least `min_len` characters that ends at the first sentence end. It is that prefix whenever the first sentence is long enough |
| Sentence.FirstSentenceNormalized | build_defs.py:62-71 | what `first_sentence` returns is trimmed, with single spaces between words |
| PostFix.LeadInEnd | build_defs.py:227 | the `^(In\s+\w+istica,\s*)` match, in any case, is found when one exists and is unique |
| PostFix.ApostropheAlternativeNeverMatches | build_defs.py:228 | the `E'` alternative of `^\b(E\|È\|E')\b\s+` matches no text |
| PostFix.CopulaEndExactly | build_defs.py:228 | the copula is removed exactly when the text starts with `E`, `e`, `È` or `è` followed by whitespace, and then together with all that whitespace |
| PostFix.FixNormalized | build_defs.py:226-229 | `Fix` (the lead-in and copula substitutions, then `normalize_space`) returns text that is trimmed, with single spaces between words |
| Fetchers.HeaderEnd | build_defs.py:133 | the header `==\s*Italiano\s*==`, in any case, is found at a position exactly when one starts there; its end is unique |
| Fetchers.FindHeader | build_defs.py:133-134 | finds the first position where the header starts; none exists when it returns nothing |
| Fetchers.BodyEnd | build_defs.py:133 | the lazy body stops at the first `\n==[^=]…==` section break, or at the end of the text |
| Fetchers.FindSection | build_defs.py:133-134 | the leftmost section match: the first header, then the body up to the first later section break |
| Fetchers.ItalianBody | build_defs.py:133-135 | with an Italian section the body between its header and the next section break is searched; without an Italian header the whole wikitext is |
| Fetchers.PickDefinition | build_defs.py:137-144 | returns the cleaned form of the first line that starts with `#` but not with `#:`, `#*` or `##`, and whose cleaned form has at least 12 characters; returns nothing when no line qualifies |
| Fetchers.StrippedLines | build_defs.py:137 | the lines of the body, each stripped, one for each line of `splitlines()` |
| Fetchers.FromWikitext | build_defs.py:127-144 | a definition comes only from a status-200 reply without error and with non-empty wikitext, and has at least 12 characters; for such a reply it is the definition-line choice over the stripped lines of the Italian body |
| Fetchers.FirstContentLine | build_defs.py:163 | returns the first line that is not blank and does not start with `=`, stripped; returns nothing when there is no such line |
| Fetchers.PageCandidate | build_defs.py:160-168 | a page's candidate has at least 12 characters |
| Fetchers.PageCandidateExactly | build_defs.py:160-168 | a page yields a candidate exactly when its extract is non-empty, has a kept line, and the first kept line cuts to a normalized sentence of at least 12 characters; the candidate is that sentence |
| Fetchers.PickPage | build_defs.py:159-168 | returns the candidate of the first page that yields one; returns nothing exactly when no page does |
| Fetchers.FromExtracts | build_defs.py:155-168 | the extract fallback answers only on status 200, with at least 12 characters; on status 200 it is the first page that yields a candidate |
| Fetchers.Wiktionary | build_defs.py:112-169 | uses the wikitext strategy when it gives a definition and the extract fallback otherwise; the result has at least 12 characters |
| Fetchers.Wikipedia | build_defs.py:171-184 | a summary answers only on status 200, for a page whose type is not disambiguation, when `extract` or `description` is non-empty, with at least 12 characters; on such a reply the answer is the first sentence of the cleaned `extract`, or of the cleaned `description` when `extract` is empty, if it has at least 12 characters, and nothing otherwise |
| Fetchers.WiktionaryNormalized | build_defs.py:112-169 | a Wiktionary definition has at least 12 characters and is normalized |
| Fetchers.WikipediaNormalized | build_defs.py:171-184 | a Wikipedia definition has at least 12 characters and is normalized |
| Pipeline.LookUp | build_defs.py:218-229 | the Wiktionary, Wikipedia and post-fix stages give a truthy definition exactly when the resolved value of the term is non-empty, and then that value |
| Pipeline.BuildDefs | build_defs.py:188-245 | a non-array input is rejected. Otherwise the returned map, the `updated` count and the writes are those of the element-by-element fold, and the final write is the returned map |
| Pipeline.StepEffect | build_defs.py:207-240 | one iteration adds the stripped form of a non-empty string as a key and no other key, never replaces a non-empty value, adds one to `updated` exactly when a key goes from missing or empty to non-empty, and appends at most one write |
| Pipeline.TermsInclude | build_defs.py:207-210 | every non-empty string of the input contributes its stripped form as a term |
| Pipeline.TermsOnly | build_defs.py:207-210 | every term is the stripped form of some non-empty string of the input |
| Pipeline.RunKeys | build_defs.py:202-236 | the output keys are the existing keys together with the stripped non-empty strings |
| Pipeline.EveryTermHasEntry | build_defs.py:207-236 | every non-empty string of the input has an entry under its stripped form |
| Pipeline.NonEmptyKept | build_defs.py:211-212 | an existing entry with a non-empty value is never changed |
| Pipeline.OthersKept | build_defs.py:202-236 | a key that is not a term keeps its existing value |
| Pipeline.ProcessedValues | build_defs.py:209-236 | each term ends with its existing non-empty value, or else with what its lookup resolves to (`""` when unresolved) |
| Pipeline.UpdatedCounts | build_defs.py:231-236 | `updated` equals the number of keys whose value went from missing or empty to non-empty |
| Pipeline.CheckpointsSound | build_defs.py:238-240 | every write in the loop is a checkpoint after an element that was looked up with `(idx + 1) % save_every == 0`, and it holds the map as it was after that element |
| Pipeline.CheckpointsComplete | build_defs.py:238-240 | every such element is followed by its checkpoint |
| Pipeline.CheckpointsOrdered | build_defs.py:207-240 | the checkpoints are written in element order |
| Pipeline.BlankWordKey | build_defs.py:208-210 | a whitespace-only string is not skipped; it gives the key `""` |
| Pipeline.RerunIdempotent | build_defs.py:196-236 | with the same replies, a second run in append mode over the map of the first run gives that map back unchanged |
| Pipeline.ResolveNormalized | build_defs.py:218-229 | every value the lookup stores is `""`, or trimmed text with single spaces between words |
| Pipeline.RunValuesNormalized | build_defs.py:202-236 | every value in the output is an existing value or normalized text |

## Left out

- `html.unescape` (build_defs.py:30) is not modelled: `normalize_space` is modelled on text without HTML entities, where unescaping changes nothing.
- `\w` is exact for ASCII, Latin-1 and the Latin Extended-A and -B blocks; word characters of other scripts count as non-word characters.
- `re.IGNORECASE` is modelled only for the letters the patterns use (ASCII letters and `È`), with Python's extra equivalences for `i`, `k` and `s`.
- The `Http` class (build_defs.py:79-110) is not modelled: rate limiting, jitter, sleeping, retries and the session are clock, randomness and library behaviour.
- The requests themselves and `requests.utils.quote` are not modelled. Each term's replies come from the parameter `net`, which answers the same term the same way every time.
- `r.json()` is not modelled. A reply record holds the decoded fields the code reads, as strings. JSON values of other types in those fields, and JSON that does not decode, are not represented.
- Reading and writing files, and JSON encoding, are not modelled. The stored map read in append mode is an `Option` (`None` when the file is missing or unreadable). Each write is an entry of the `writes` log, holding the map written.
- `tqdm`, the final `print`, `argparse`, `main` and the `KeyboardInterrupt` handling (build_defs.py:204, 244, 249-265) are user interface and process control.
- `target_is_italian_section` (build_defs.py:73-75) always returns true, so its test is left out of the loop.
- A request that raises ends the whole run: a connection error, a timeout, or the `RetryError` once the retry policy (build_defs.py:84-91) gives up, and so does a body that `r.json()` cannot decode (build_defs.py:128, 157, 175). Only `KeyboardInterrupt` is caught (build_defs.py:262), so such a run makes no final write (build_defs.py:243). In the model `net` always answers, and every run ends with the final write.
- The output file lists its keys in the order they were first inserted into `out` (build_defs.py:202, 240, 243). The model's writes hold a `map`, which has no key order.
- A stored file in append mode may decode to a JSON value that is not an object, or to an object with values that are not strings; `dict(existing)` (build_defs.py:202) then raises, or builds `out` from it, and the truth test on `out[term]` (build_defs.py:211) applies to values that are not strings. The model's stored map is an `Option<map<string, string>>`, which represents neither case.
- Sentence.FirstSentence: its own contract is empty; `first_sentence` is `CutFirstSentence` applied to the normalized text, and the contract is stated there.
