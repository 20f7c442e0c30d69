# Literature search ranking: a Dafny model

This project models the paper-search logic of the browser-extension popup in
`popup.js`. The popup sends a topic to two bibliographic search services,
Semantic Scholar (JSON) and arXiv (Atom XML). It maps the results of both
to one paper record `{title, abstract, citations, pdfURL}` and ranks the
merged list by lexical similarity to the topic. Each text is turned into a
hashed bag-of-words vector of 300 counts, and the ten best-scoring papers
are kept. The PDF links of those papers are what the "summarise" button
later sends to a local automation server.

Modules (one file each):

- `JsStrings` (`jsstrings.dfy`): the JavaScript string built-ins the code
  relies on, namely `toLowerCase` on ASCII letters, `split(/\W+/)`,
  `split("/abs/")` and `trim` with the ECMAScript whitespace set.
- `TextEmbedding` (`embedding.dfy`): `embed`. The function `Embedding` is
  the specification, and the method `Embed` is the source's in-place
  counting loop over a 300-slot array.
- `Papers` (`papers.dfy`): the Semantic Scholar and arXiv record mappers.
  They work on already-parsed input. A JSON property is `Absent`
  (`undefined`), `Null`, or `Present(v)`. With that, `||`, `??`, `?.` and
  the destructuring default `{ data = [] }` behave as they do in JavaScript.
- `Ranking` (`ranking.dfy`): `getPapers`. Each source's outcome
  (`Fetch`: a parsed response, or a rejected promise) becomes a paper list,
  and a rejection becomes `[]`. The candidates are scored through
  `ScoreCandidates`, sorted in place by `SortInPlace` and sliced. The
  specification `SortByScore` is a stable insertion sort, because
  `Array.prototype.sort` is stable.
- `Popup` (`popup.dfy`): the search button's click handler in `popup.js`: the trimmed-query check, the
  ranked papers, the PDF list `window.__pdfs` and whether the summarise
  button is displayed.

The similarity measure (`cosine` in the source) is a parameter
`sim: (seq<int>, seq<int>) -> int` applied to the query's embedding and the
paper's embedding. The text embedded for a paper is
`p.title + " " + p.abstract`, with a missing title rendered as `"undefined"`
(or `"null"`), as JavaScript's string concatenation does.

Some behaviours of the code that the model keeps:

- `data: null` in the Semantic Scholar body is a TypeError at `.map`.
  Through `.catch(_ => [])` it yields no papers, while a missing `data`
  yields `[]` by the default.
- An arXiv entry without an `<id>`, `<title>` or `<summary>` element makes
  the whole arXiv request reject, so that source contributes no papers.
- An arXiv id without "/abs/" gives the link
  `https://arxiv.org/pdf/undefined.pdf`.
- `abstract` falls back to `""` for any falsy value. `citations` falls back
  to `0` only for a missing or null count, so a count of `0` stays `0`.
- `split(/\W+/)` is modelled as a split at every single non-word character.
  `SplitNonWordWeave` proves that the pieces, with the non-word characters
  put back between them, give back the text, and `SplitNonWordChars` proves
  that the pieces hold only word characters. So the non-empty pieces are
  exactly the maximal runs of word characters, in order, as with `/\W+/`.
  The two splits differ only in the number of empty pieces, and `embed`
  skips empty pieces (`if (!w) return;`).

## Model

| member | source | states |
|---|---|---|
| TextEmbedding.CodeUnit | popup.js:6 | `charCodeAt(0)` of a one-code-point string is a UTF-16 code unit, below 0x10000 |
| TextEmbedding.Hash | popup.js:6 | the fold `(a * 31 + code) % 300` from seed 7 always yields a bucket index in [0, 300) |
| TextEmbedding.NonEmpty | popup.js:5 | `if (!w) return;` keeps at most as many pieces as it is given; `NonEmptyElements` shows that each kept piece is a non-empty one of them |
| TextEmbedding.Tokens | popup.js:4-5 | the non-empty pieces, in text order, of the lower-cased text's split: `SplitNonWordWeave` and `SplitNonWordChars` fix the pieces and `NonEmptySnoc` the filter; `TokensNil` and `TokensAreLowerWords` are properties of it |
| TextEmbedding.NonEmptyElements | popup.js:5 | every piece `if (!w) return;` lets through is non-empty and is one of the given pieces |
| TextEmbedding.NonEmptySnoc | popup.js:4-5 | one more piece adds that piece to the kept pieces when it is non-empty, and nothing otherwise |
| TextEmbedding.NonEmptyNil | popup.js:5 | no piece is kept exactly when every piece is empty |
| TextEmbedding.Bag | popup.js:3-8 | counting a token list into the zero vector gives a vector of exactly 300 entries; `BagCounts` and `SumBag` give its contents |
| TextEmbedding.Embedding | popup.js:2-10 | the value `embed(text)` returns has exactly 300 entries; `EmbeddingCounts`, `EmbeddingSum` and `EmbeddingZero` give its contents |
| TextEmbedding.Embed | popup.js:2-10 | returns a fresh array of exactly 300 entries equal to `Embedding(text)`: the counts of the non-empty lower-cased pieces' hashes |
| TextEmbedding.CountPieces | popup.js:4-8 | the `forEach` loop leaves, in a zeroed 300-slot array, the counts of the non-empty pieces |
| TextEmbedding.Increment | popup.js:7 | `vec[h] += 1` adds one to slot `h` and leaves every other slot as it was |
| TextEmbedding.EmbedStep | popup.js:4-7 | one loop iteration: an empty piece changes nothing, a non-empty piece adds one to its hash's bucket |
| TextEmbedding.BagCounts | popup.js:4-8 | after counting a token list, bucket `b` holds the number of tokens whose hash is `b` |
| TextEmbedding.EmbeddingCounts | popup.js:2-10 | bucket `b` of `embed(text)` is the number of the text's tokens hashing to `b` |
| TextEmbedding.SumBag | popup.js:4-8 | counting a token list into the zero vector gives counts that sum to the list's length |
| TextEmbedding.EmbeddingSum | popup.js:3-8 | the embedding has 300 entries and they sum to the number of non-empty tokens |
| TextEmbedding.TokensNil | popup.js:4-5 | a text has no tokens exactly when it contains no word character |
| TextEmbedding.EmbeddingZero | popup.js:3-8 | the embedding is the all-zero vector if and only if the text has no word character (empty or separator-only text) |
| TextEmbedding.EmbeddingCaseInsensitive | popup.js:4 | `embed(t.toLowerCase())` equals `embed(t)` |
| TextEmbedding.TokensAreLowerWords | popup.js:4-6 | every token is non-empty and consists of `[a-z0-9_]`, all below code 128 |
| JsStrings.IsWordChar | popup.js:4 | `\w` without the `u` or `i` flag: an ASCII letter, an ASCII digit or `_` |
| JsStrings.IsJsWhitespace | popup.js:41-42 | the ECMAScript WhiteSpace and LineTerminator code points, the set `trim` removes |
| JsStrings.LowerChar | popup.js:4 | an upper-case ASCII letter becomes its lower-case partner (code + 32), every other character is kept, and whether it is a word character does not change |
| JsStrings.ToLower | popup.js:4 | lower-casing keeps the length and maps each character on its own |
| JsStrings.ToLowerIdempotent | popup.js:4 | lower-casing twice is lower-casing once |
| JsStrings.SplitNonWord | popup.js:4 | splitting always yields at least one piece |
| JsStrings.SplitNonWordWeave | popup.js:4 | there is one more piece than there are non-word characters, and weaving the non-word characters back between the pieces gives back the text |
| JsStrings.SplitNonWordChars | popup.js:4 | every character of every piece is a word character of the original text |
| JsStrings.SplitNonWordNonEmptyPiece | popup.js:4-5 | some piece is non-empty if and only if the text has a word character |
| JsStrings.ToLowerHasWordChar | popup.js:4 | lower-casing neither creates nor removes word characters |
| JsStrings.FirstIndex | popup.js:39 | the result is an occurrence of the pattern with none before it, and `None` means the pattern does not occur |
| JsStrings.Split | popup.js:39 | `split(sep)` always yields at least one piece |
| JsStrings.SplitFirstPiece | popup.js:39 | the first piece of `split(sep)` ends at the leftmost occurrence of `sep`, and a string without `sep` is its own only piece |
| JsStrings.SplitJoin | popup.js:39 | joining the pieces of `split(sep)` with `sep` gives back the original string |
| JsStrings.SplitPiecesFree | popup.js:39 | no piece of `split(sep)` contains `sep` |
| JsStrings.SplitMoreThanOne | popup.js:39 | `split(sep)` has a second piece if and only if `sep` occurs |
| JsStrings.Trim | popup.js:41-42 | a trimmed string neither starts nor ends with whitespace |
| JsStrings.TrimIsInfix | popup.js:41-42 | `trim` removes exactly a whitespace prefix and a whitespace suffix |
| JsStrings.TrimEmpty | popup.js:86-87 | a string trims to `""` if and only if it is all whitespace |
| JsStrings.TrimIdempotent | popup.js:41-42 | trimming twice is trimming once |
| Papers.Truthy | popup.js:28-30 | a string-valued property is truthy for `\|\|` exactly when it is present and non-empty |
| Papers.OrEmpty | popup.js:28 | `abstract` is the given string, or `""` when the property is missing or null |
| Papers.OpenAccessUrl | popup.js:30 | `p.openAccessPdf?.url` is the object's `url` property when `openAccessPdf` is present, and `undefined` when it is missing or null |
| Papers.S2PdfUrl | popup.js:30 | `pdfURL` is the open-access URL if non-empty, else the page URL if non-empty; it is `""` exactly when neither is a non-empty string |
| Papers.NormalizeS2Entry | popup.js:26-31 | title kept as given; abstract falls back to `""`; citations fall back to 0 only when the count is missing or null; the pdfURL as above |
| Papers.NormalizeS2List | popup.js:26-31 | one paper per entry, in entry order |
| Papers.NormalizeS2 | popup.js:25-26 | a missing `data` gives `[]`; a null `data` rejects, and only a null one does; otherwise one paper per entry |
| Papers.ArxivId | popup.js:39 | `idAbs.split("/abs/")[1]`, or `undefined` when there is no second piece; characterised by `ArxivIdBetweenMarkers` |
| Papers.Render | popup.js:44 | a value interpolated into the template literal: the id itself, or the text "undefined" |
| Papers.ArxivPdfUrl | popup.js:44 | the template literal `https://arxiv.org/pdf/${id}.pdf`; `ArxivPdfUrlParts` shows it is the prefix, the rendered id and ".pdf", from which the id can be read back |
| Papers.ArxivPdfUrlParts | popup.js:44 | the link's length is the sum of its three parts, it starts with the PDF prefix, ends with ".pdf", and holds exactly the rendered id between them |
| Papers.NormalizeArxivEntry | popup.js:37-45 | an entry maps exactly when it has id, title and summary; title and abstract are trimmed, citations are "N/A", and `pdfURL` is the PDF prefix + id + ".pdf" |
| Papers.NormalizeArxiv | popup.js:37-46 | the feed maps exactly when every entry is well formed; then one paper per entry, in order |
| Papers.ArxivIdBetweenMarkers | popup.js:38-39 | the id is the text between the first "/abs/" and the next one or the end, and it is `undefined` exactly when "/abs/" is absent |
| Ranking.CandidatesFromSources | popup.js:50-54 | the candidates are the Semantic Scholar papers in entry order followed by the arXiv papers; a failed or rejected source contributes none |
| Ranking.S2Papers | popup.js:51 | `fetchSemanticScholar(query).catch(_ => [])` yields as many papers as the response has `data` entries, and none for a failed request or a missing or null `data` |
| Ranking.ArxivPapers | popup.js:52 | `fetchArxiv(query).catch(_ => [])` yields one paper per entry when every entry is well formed, and none otherwise |
| Ranking.Candidates | popup.js:54 | `[...s2, ...ax]` has as many candidates as the two sources contribute together; `CandidatesFromSources` gives their order |
| Ranking.TitleText | popup.js:56 | the title as string concatenation renders it: the string itself, "undefined" when missing, "null" when null |
| Ranking.ScoreText | popup.js:56 | the text `p.title + " " + p.abstract`; characterised by `ScoreTextParts` |
| Ranking.ScoreTextParts | popup.js:56 | the embedded text is the rendered title, one space, then the abstract, and nothing else |
| Ranking.Score | popup.js:55-56 | `cosine(qVec, embed(p.title + " " + p.abstract))`, with the similarity measure as a parameter; `ScoreCaseInsensitive` shows the query's case does not matter |
| Ranking.ScoreCaseInsensitive | popup.js:55-56 | a query and its lower-cased form give every paper the same score |
| Ranking.ScoreAll | popup.js:56 | `forEach(p => p.score = ...)` gives exactly one scored paper per candidate |
| Ranking.ScoreAllPapers | popup.js:56 | scoring keeps each candidate at its position and attaches that candidate's own score |
| Ranking.Insert | popup.js:57 | one insertion step of the stable sort adds exactly one element; `InsertPermutes`, `InsertKeepsOrder` and `InsertAt` characterise it |
| Ranking.SortByScore | popup.js:57 | the stable descending sort keeps the number of candidates; characterised by `SortPermutes`, `SortOrders` and `SortIsStable` |
| Ranking.Rank | popup.js:57 | `slice(0, 10)` of the sorted candidates has `min(10, n)` papers, and it followed by `Dropped` is the whole sorted list |
| Ranking.Dropped | popup.js:57 | what `slice(0, 10)` leaves out: the `n - min(10, n)` papers after the first ten |
| Ranking.S2PapersFromEntries | popup.js:25-51 | the Semantic Scholar contribution has one paper per `data` entry, mapped in order, and none when the request fails or `data` is missing or null |
| Ranking.ArxivPapersFromEntries | popup.js:37-52 | the arXiv contribution has one paper per entry when every entry is well formed, and none otherwise or when the request fails |
| Ranking.InsertPermutes | popup.js:57 | inserting adds exactly one element |
| Ranking.InsertKeepsOrder | popup.js:57 | inserting into a non-increasing list keeps it non-increasing |
| Ranking.SortPermutes | popup.js:57 | the sort is a permutation of the candidates |
| Ranking.SortOrders | popup.js:57 | the sorted list is in non-increasing score order |
| Ranking.InsertAt | popup.js:57 | in a sorted list an element goes just before the first strictly lower score |
| Ranking.SortIsStable | popup.js:57 | for every score, the papers with that score keep their candidate order (stability) |
| Ranking.RankSelects | popup.js:57 | the slice has `min(10, n)` papers, in non-increasing order; kept and dropped papers together are the candidates; every kept paper scores at least as high as every dropped one |
| Ranking.InsertInPlace | popup.js:57 | one insertion pass on the array turns its sorted prefix into the functional insertion of the next element |
| Ranking.SortInPlace | popup.js:57 | the in-place sort leaves the array equal to the stable descending sort of its old contents |
| Ranking.ScoreCandidates | popup.js:55-56 | each candidate gets the score of the query's embedding against the embedding of its title and abstract |
| Ranking.ScoreOne | popup.js:56 | given the query's embedding, returns the similarity between it and the embedding of the paper's title and abstract |
| Ranking.GetPapers | popup.js:49-58 | returns the ranking of the scored candidates: `min(10, n)` papers for n candidates, non-increasing, drawn from the candidates, none outranked by a dropped candidate |
| Popup.PdfUrls | popup.js:90 | the PDF list is no longer than the ranking and holds only non-empty URLs |
| Popup.PdfUrlsAppend | popup.js:90 | the PDF list of a concatenation is the concatenation of the lists, so the ranked order is kept |
| Popup.PdfUrlsOne | popup.js:90 | one paper contributes its URL exactly when the URL is non-empty |
| Popup.PdfUrlsFromPapers | popup.js:90 | every listed URL is the URL of a ranked paper |
| Popup.PdfUrlsEmpty | popup.js:90-91 | the list is empty exactly when no ranked paper has a non-empty URL |
| Popup.OnSearch | popup.js:85-92 | an all-whitespace query stops with the alert and nothing else happens; otherwise the ranking of the trimmed query is shown, the PDF list is its non-empty URLs, and the summarise button is visible if and only if some ranked paper has a PDF URL |

## Left out

- `cosine` (popup.js:11-17): floating-point dot products, `Math.sqrt` and the `1e-9` term. The score is the abstract integer-valued parameter `sim`.
- Network and parsing (popup.js:23-25, 35-38): `fetch`, `.json()`, `DOMParser` and `getElementsByTagName` are foreign I/O. Their parsed results are inputs, and the query URLs they are built from are not modelled.
- `Promise.all` (popup.js:50-53): the two requests run concurrently; the model takes both outcomes as given.
- `displayPapers`, `displaySummaries`, the alerts, and the summarise button's POST (popup.js:60-77, 94-106): these are HTML templating and UI. The PDF list they send is `Popup.PdfUrls`.
- JsStrings.ToLower: only ASCII letters are lower-cased. The few non-ASCII characters whose lower case contains an ASCII letter (the Kelvin sign, U+0130) would add word characters in JavaScript and do not here.
- TextEmbedding.Embed: the counts are stored in a `Float32Array` in the source. Counts above 2^24 in one bucket would stop growing there; the model's integers do not.
- Papers.NormalizeS2List: every `data` element is taken to be an object with string or number fields. A `null` element, or a title that is not a string, is not modelled.
- Strings are sequences of Unicode scalar values, not of UTF-16 code units, so a lone surrogate in the parsed JSON or XML cannot be an input. On every text the model can represent, the outputs are the same.
- Popup.OnSearch: models one click on its own. The handler is asynchronous (popup.js:85-92), so two overlapping searches race on `window.__pdfs` and on the button's display, and the response that arrives last wins. The model does not capture that interleaving.
- The automation server (notebooklm_automation.js), the content script (content.js) and the background forwarder (background.js) are browser automation and message plumbing with timers, and are not part of this model.
