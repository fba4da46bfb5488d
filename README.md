# NASA research question answering: the decision core of `/ask`

The service answers a free-text question against a fixed corpus of NASA
research summaries. An embedding model scores the question against every
summary. `torch.argmax` picks the best article, and a best score below 0.3
means "no relevant summary". If the question names a section ("impact",
"result", "knowledge", ...), the answer is narrowed to that labelled
subsection of the summary. `extract_section` pulls that subsection out with a
single case-insensitive regular expression.

This project models that decision logic as pure Dafny functions and proves
its properties:

- `PyText`: the Python string built-ins the code relies on. These are
  `str.strip()` (as CPython's index scan, with the full `str.isspace` set),
  `str.lower()` (ASCII) and the substring test `key in text`.
- `SectionExtractor`: `extract_section`, the regex
  `(K1|...|Kn):([\s\S]*?)(?=(?:<stop label>|...):|$)` under `re.IGNORECASE`,
  written out step by step:
  - the alternatives are tried in order (`FirstAlternative`);
  - the search takes the leftmost position (`Search`);
  - the lazy group stops where the lookahead first holds (`SectionEnd`), and
    `$` is modelled as Python defines it: the end of the text, or just before a
    final newline;
  - the captured group is stripped.
- `QueryMatcher`: the first-maximum argmax and the 0.3 threshold. The
  similarity scores are an input: one real per article, in corpus order.
- `AskEndpoint`: the `ask` body after request parsing:
  - the blank-query gate;
  - the failure of the similarity step on an empty corpus;
  - the relevance gate;
  - the ordered `section_map` router, which falls through on a missing or
    empty section and otherwise returns the whole article.
- `AskExamples`: worked requests, among them a summary
  "Results: Impacts: x" whose results section is empty, so the router falls
  through to the whole summary.

Two facts of the code are worth stating outright:

- The rejection message is "No relevant NASA summary found." (app.py:72).
- A sectioned reply is titled with the first label of the intent's list
  (`section_list[0]`, app.py:89). So a results question about the bone density
  study gets the title "Bone Density Study — Result"
  (`AskExamples.BoneResultsQuery`).

## Model

| member | source | states |
|---|---|---|
| `PyText.Lower` | app.py:85 | an ASCII capital becomes its own lower-case letter (code point plus 32) and nothing else does; every other character is unchanged |
| `PyText.LowerStr` | app.py:85 | `query.lower()` keeps the length and lowers each character |
| `PyText.SkipSpace` | app.py:59 | the strip scan from the left stops at the first non-whitespace character, having passed only whitespace |
| `PyText.SkipSpaceBack` | app.py:59 | the strip scan from the right stops after the last non-whitespace character, having passed only whitespace |
| `PyText.Strip` | app.py:59 | `strip()` returns the slice of its input after the leading whitespace, with no whitespace at either end and only whitespace cut off on both sides |
| `PyText.StripIdempotent` | app.py:40 | stripping an already stripped text changes nothing |
| `PyText.IsSubstring` | app.py:85 | `key in text`: the empty key is in every text, a key is in itself, and a key found is no longer than the text |
| `PyText.StripDropsTrailingSpace` | app.py:37-40 | a trailing whitespace character never changes the result of `strip()` |
| `SectionExtractor.FirstAlternative` | app.py:37 | an alternative is found at a position iff some keyword, compared case-insensitively, is there followed by ':', and the one returned is such a keyword |
| `SectionExtractor.FirstAlternativeInOrder` | app.py:37 | the alternative returned is the first of the list, in order, that matches there |
| `SectionExtractor.Search` | app.py:37-38 | `re.search` finds no opening iff no keyword with colon occurs from the start position on; otherwise it returns the leftmost position, with a matching keyword and none earlier |
| `SectionExtractor.SectionEnd` | app.py:37 | the lazy group ends at the first position where a stop label with its colon begins or `$` matches (`EndAnchorAt`: the end of the text, or just before a final newline), and no earlier |
| `SectionExtractor.Alternatives` | app.py:37 | the alternatives of `'\|'.join(keywords)` are the keywords, except that no keywords give the one empty alternative |
| `SectionExtractor.ExtractSection` | app.py:32-41 | the result is None exactly when no alternative followed by ':' occurs anywhere in the summary (case-insensitively); a found section has no whitespace at either end |
| `SectionExtractor.NoKeywordsMatchAnyColon` | app.py:37-41 | with no keywords the pattern opens with `():`, so a section is found exactly when the summary holds a ':' |
| `SectionExtractor.SameLengthAtSamePosition` | app.py:37 | two colon-free keywords that both match at one position have the same length, so the order of the alternatives does not change the captured text |
| `SectionExtractor.SectionEndAgrees` | app.py:37-40 | after stripping, stopping at `$` before a final newline is the same as stopping at the end of the text |
| `SectionExtractor.ExtractSectionSpec` | app.py:37-40 | with the leftmost keyword-with-colon at p, the result is the stripped text from just after its colon up to the first stop label with colon after it, or the end |
| `SectionExtractor.SectionExcludesStopLabels` | app.py:37-40 | a found section is a slice of the summary and contains no stop label followed by ':' |
| `QueryMatcher.ArgMax` | app.py:66-67 | the chosen index holds a score at least every other score, and every earlier score is strictly smaller (first maximum wins ties) |
| `QueryMatcher.FirstMaxIsUnique` | app.py:66 | exactly one index is the first maximum, so the tie-break is determined |
| `AskEndpoint.SectionMapWellFormed` | app.py:75-82 | every intent names at least one section label and no label contains ':' |
| `AskEndpoint.Route` | app.py:84-94 | the loop over `section_map`: the reply's title always begins with the article's title, and an unchanged title means the whole article; `RouteFirstClaim` and `RouteFallback` say which reply comes back |
| `AskEndpoint.RouteFirstClaim` | app.py:84-91 | the first intent in `section_map` order whose key is in the lower-cased query and whose section is present and non-empty decides the reply: title "<title> — <first label>", summary the section |
| `AskEndpoint.RouteFallback` | app.py:84-94 | the article's own title and summary come back unchanged iff no intent claims the query (key present and section non-empty) |
| `AskEndpoint.Ask` | app.py:59-68 | the request fails exactly when the stripped query is non-blank and the corpus is empty (the similarity step raises) |
| `AskEndpoint.AskBlankQuery` | app.py:59-61 | a query that is blank after `strip()` gets `{"title": "", "summary": "Please enter a question."}` whatever the corpus and its scores |
| `AskEndpoint.AskBelowThreshold` | app.py:65-72 | when every score is below 0.3 the reply is `{"title": "", "summary": "No relevant NASA summary found."}` whatever the query says |
| `AskEndpoint.AskRoutesFirstMax` | app.py:66-94 | when the first maximal score is at least 0.3 (0.3 included) the reply is the router's answer for that article and the stripped query |
| `AskExamples.TerseResultsAreEmpty` | app.py:37-40 | in "Results: Impacts: x" the results section is found but is the empty string |
| `AskExamples.TerseFallsThrough` | app.py:84-94 | asking "results" of that summary falls through the empty section to the whole article |
| `AskExamples.BriefResults` | app.py:37-41 | in "Results:x" the results section runs to the end of the text |
| `AskExamples.BoneResults` | app.py:37-40 | in "Results: Bone loss observed. Impacts: Mission duration limits." the results section is "Bone loss observed." |
| `AskExamples.BoneResultsQuery` | app.py:84-91 | the query "results" about the bone density study is answered with its results section, titled "Bone Density Study — Result" |
| `AskExamples.PlantsQueryRejected` | app.py:71-72 | a best score of 0.12 is rejected |
| `AskExamples.BlankQueryPrompts` | app.py:59-61 | a query of blanks gets the prompt to enter a question |

## Left out

- The Flask application, its routes `home` and `nasa`, template rendering,
  `jsonify` and `app.run` are web plumbing and are not modelled.
- Request JSON parsing is not modelled; the model starts from the `query`
  string. A missing `query` field behaves as the empty string. A body that is
  not a JSON object would raise before the core runs.
- Loading `nasa_articles2.json`, the NLTK resource check and download, and the
  unused `STOPWORDS` set are start-up I/O and are not modelled. The corpus is
  an input, and every article is taken to have a title and a summary.
- The sentence-transformer model, `encode` and `pytorch_cos_sim` are foreign
  numeric code and are not modelled. Their output enters as one real score per
  article, in corpus order.
- Float32 rounding and NaN scores are not modelled (scores are exact reals). So
  "exactly 0.3 is accepted" is stated for the real number 0.3.
- Case-insensitivity is ASCII only. Python's `re.IGNORECASE` and `str.lower()`
  also fold non-ASCII letters (for example the Kelvin sign matches 'k'). The
  model does not.
- The keywords are matched as literal text. The source splices them into the
  pattern unescaped, so a keyword holding regex syntax would change the
  pattern; no label in `section_map` holds any. An empty keyword list is
  modelled: it joins to the empty pattern (`Alternatives`).
- Diagnostic `print` logging is not modelled.
- The exact exception on an empty corpus is not modelled. The model only
  records that the request fails (`ServerError`).
