# GoogleIt context pipeline in Dafny

GoogleIt answers a question in four steps. It searches Google, downloads the top result pages as PDFs, reduces their text to a bounded context passage, and asks a PaLM 2 model to answer from that passage. This project models the deterministic core of that pipeline and proves its properties:

- **Domain keys** (`DomainKey`): `get_domain_name` is written out as the regex engine runs `re.search(r'(https?://)?(www\.)?(.+?)\.(.+?)', url)`. Start positions are tried left to right, the optional groups are backtracked, the lazy groups grow one character at a time, and `.` never matches a newline.
- **Result selection** (`TopUrls`): the loop of `get_top_urls` over the result links' `href` strings. It keeps redirect links that are not cached copies, extracts each target, skips keyless and already-seen domains, and stops after `urls_count` acceptances.
- **Text normalisation and relevance** (`Relevance`): `preprocess_text` and the threshold decision of `extract_relevant_content`. The tokenizer, the stopword set and the TF-IDF similarity are parameters.
- **Paragraph handling** (`TextProcessor`):
  - the non-blank filter of `read_document_paragraphs`;
  - the `" ".join` of `extract_text_from_pdf`;
  - the `while … else` windowing loop of `get_chunks`, proved against a specification of its windows.
- **Context assembly** (`Context`):
  - `with_document`, which keeps the newline-separated lines that are relevant to the reference document;
  - `without_document`, which concatenates overlapping windows of 10 paragraphs;
  - the 49000-character cut shared by both;
  - the branch in `get`.
- **Model client** (`PalmModel`):
  - the `Palm2Model` class with its `model` field;
  - model selection in `init`;
  - the guard in `query`;
  - the passage escape in `make_prompt`.

`Text` models the Python string operations the core relies on: `in`, `split`, `join`, `strip`, `isalnum` and `lower`. `Seqs` holds the order-preserving filter that models list comprehensions and filtering loops.

For 25 paragraphs with the defaults (size 10, overlap 2), `get_chunks` gives three chunks. Full windows start at 0 and 8. The trailing chunk starts at 16, because 16 + 10 > 25 ends the loop. It does not give four chunks, which would need a full window at 16 and a trailing chunk from 24. The model follows the code, and `TextProcessor.DefaultWindowsOf25` states the code's result.

## Model

| member | source | states |
|---|---|---|
| Seqs.Filter | src/GoogleIt/googleit.py:128 | a comprehension's filter keeps only passing elements and never grows the list |
| Seqs.FilterAppend | src/GoogleIt/googleit.py:128 | filtering distributes over concatenation, so survivors keep their relative order |
| Seqs.FilterCount | src/GoogleIt/googleit.py:128 | each passing value survives exactly as often as it occurs, and a failing value never survives |
| Seqs.FilterMembership | src/GoogleIt/googleit.py:128 | a value survives iff it occurs in the input and passes |
| Seqs.FilterFirst | src/GoogleIt/palm_model.py:66-68 | the filtered list is empty iff nothing passes; otherwise its first element is the first passing input element |
| Text.FindFrom | src/GoogleIt/googleit.py:168 | the result is the first occurrence of the pattern at or after the start; none means there is no occurrence there |
| Text.ContainsIff | src/GoogleIt/googleit.py:168 | `sub in s` holds iff `sub` occurs at some index of `s` |
| Text.FindIsFirst | src/GoogleIt/googleit.py:169 | an occurrence with none before it is the one `find` returns |
| Text.Split | src/GoogleIt/googleit.py:169 | `str.split(sep)` gives at least one piece, and at least two exactly when `sep` occurs |
| Text.SplitJoin | src/GoogleIt/googleit.py:169 | joining the pieces of a split with the separator gives the original string back |
| Text.SplitPieces | src/GoogleIt/googleit.py:169 | no piece of a split contains the separator |
| Text.SplitHead | src/GoogleIt/googleit.py:169 | the first piece is the prefix before the first separator, or the whole string |
| Text.JoinSplit | src/GoogleIt/googleit.py:129 | splitting a one-character join of pieces free of that character gives the pieces back |
| Text.LStrip | src/GoogleIt/text_processor.py:79 | removes exactly the leading whitespace run, as `str.strip` does on the left |
| Text.RStrip | src/GoogleIt/text_processor.py:79 | removes exactly the trailing whitespace run |
| Text.StripEmptyIffBlank | src/GoogleIt/text_processor.py:79 | `strip()` is empty iff every character is whitespace |
| Text.Lower | src/GoogleIt/googleit.py:126 | same length; each upper-case ASCII letter becomes the lower-case letter at the same alphabet position; every other character unchanged |
| DomainKey.KeyEndFrom | src/GoogleIt/googleit.py:141 | the lazy group ends at the first usable dot at or after the given index, and at none before |
| DomainKey.KeyOfShape | src/GoogleIt/googleit.py:141-143 | a key is a non-empty prefix without a newline that is followed by a usable dot, and has no dot after its first character |
| DomainKey.MatchAtIsKeyOfSuffix | src/GoogleIt/googleit.py:141 | a match at one start position is the key of some suffix of the URL |
| DomainKey.SearchIsKeyOfSuffix | src/GoogleIt/googleit.py:141 | a search result is the key of some suffix of the URL |
| DomainKey.DotMakesSearchSucceed | src/GoogleIt/googleit.py:141 | a usable dot at or after the start position makes the search succeed |
| DomainKey.DomainNameNone | src/GoogleIt/googleit.py:141-145 | returns None iff no dot has a non-newline before and after it; for a newline-free URL, iff no dot sits at an index ≥ 1 with a character after it |
| DomainKey.DomainNameShape | src/GoogleIt/googleit.py:141-143 | a returned key is non-empty, newline-free, has no dot after its first character, and occurs in the URL |
| DomainKey.KeyOfLabel | src/GoogleIt/googleit.py:141-143 | a host `name.rest` whose name has no dot after its first character has `name` as key |
| DomainKey.PrefixesIgnored | src/GoogleIt/googleit.py:141-143 | `http://`, `https://` and `www.` prefixes, alone or combined, do not change a host's key |
| DomainKey.ExampleKeyFullUrl | src/GoogleIt/googleit.py:141-143 | `https://www.example.com/a` gives `example` |
| DomainKey.ExampleKeyVariants | src/GoogleIt/googleit.py:141-143 | `http://example.com`, `www.example.com` and `example.com` all give `example` |
| DomainKey.ExampleKeyQuirks | src/GoogleIt/googleit.py:141-143 | `en.wikipedia.org` gives `en` (subdomains are not collapsed); `https://www.x` gives `www` (the `www.` group is backtracked) |
| TopUrls.RedirectMarkerHasQuery | src/GoogleIt/googleit.py:168-169 | every link that passes the `url?q=` test has a `?q=` to split on |
| TopUrls.TargetBetweenMarkers | src/GoogleIt/googleit.py:169 | the target starts right after the first `?q=`, holds neither `?q=` nor `&sa=U`, and is followed by nothing, `?q=` or `&sa=U` |
| TopUrls.Candidate | src/GoogleIt/googleit.py:168-171 | a link yields a pick only if it has `url?q=` and lacks `webcache`, and the pick's domain is the key of the pick's URL |
| TopUrls.CandidateIff | src/GoogleIt/googleit.py:168-172 | a link yields a pick iff it has `url?q=`, lacks `webcache` and its target `href.split("?q=")[1].split("&sa=U")[0]` has a domain key; the pick's URL is that target and its domain is the target's key |
| TopUrls.Top | src/GoogleIt/googleit.py:162-178 | the result is a prefix of the unlimited selection; it has at most `urls_count` picks when that is ≥ 1; it is cut short only by reaching `urls_count` |
| TopUrls.FirstSeen | src/GoogleIt/googleit.py:170-172 | the index of the first link whose candidate has a given domain, with no such link before it (for any per-link candidate function, the loop's among them) |
| TopUrls.FirstSeenExtend | src/GoogleIt/googleit.py:170-172 | appending a link changes a domain's first occurrence only when the domain was unseen |
| TopUrls.SelectedComplete | src/GoogleIt/googleit.py:170-175 | every candidate domain of the input appears among the picks (stated for any per-link candidate function, so also for `Selected`) |
| TopUrls.SelectedDistinct | src/GoogleIt/googleit.py:172-175 | the picked domains are pairwise distinct, whatever the per-link candidate function |
| TopUrls.SelectedOrigins | src/GoogleIt/googleit.py:170-175 | each pick is the candidate of the first link carrying its domain, and picks are in encounter order |
| TopUrls.SelectedPrefix | src/GoogleIt/googleit.py:166-178 | scanning a prefix of the links picks a prefix of the full selection, which is what makes the early `break` sound |
| TopUrls.ResultLists | src/GoogleIt/googleit.py:170-175 | in the returned lists, every domain is the key of the URL beside it, and the domains are distinct |
| TopUrls.GetTopUrls | src/GoogleIt/googleit.py:162-180 | the loop returns lists of equal length equal to `Top(hrefs, urls_count)`; at most `urls_count` entries when that is ≥ 1; keys match URLs; domains are distinct |
| Relevance.PreprocessTextWords | src/GoogleIt/googleit.py:126-129 | the output is empty iff no token survives; otherwise splitting it on spaces gives exactly the lower-cased tokens that are alphanumeric and not stopwords, in order and with their multiplicities |
| Relevance.ExtractRelevantContent | src/GoogleIt/googleit.py:211-228 | returns the input iff the similarity of the two preprocessed texts is ≥ the threshold (bound inclusive), otherwise None |
| Relevance.RelevanceMonotone | src/GoogleIt/googleit.py:225-228 | corollary of the threshold test: content kept at one threshold is kept at every lower threshold |
| TextProcessor.NonBlankIff | src/GoogleIt/text_processor.py:79 | a paragraph passes `strip()` iff it has a non-whitespace character |
| TextProcessor.ReadDocumentParagraphs | src/GoogleIt/text_processor.py:76-81 | the loop keeps, in order and unstripped, exactly the non-blank paragraphs |
| TextProcessor.KeptTextEmptyIff | src/GoogleIt/text_processor.py:124-125 | the space-join of non-blank paragraphs is empty iff there are none |
| TextProcessor.ExtractTextFromPdf | src/GoogleIt/text_processor.py:123-127 | returns the non-blank paragraphs and their space-join, which is empty iff there are none |
| TextProcessor.WindowsFrom | src/GoogleIt/text_processor.py:98-107 | from any start index there is at least one window, and every window lies within the paragraphs |
| TextProcessor.ChunkTexts | src/GoogleIt/text_processor.py:101-106 | one chunk per window: the space-join of the window's paragraphs |
| TextProcessor.ChunkTextsAppend | src/GoogleIt/text_processor.py:102-107 | appending a window appends that window's chunk |
| TextProcessor.GetChunks | src/GoogleIt/text_processor.py:84-109 | the `while … else` loop returns the chunks of `Windows(n, chunk_size, overlap_size)`: every full window, then exactly one trailing chunk |
| TextProcessor.WindowsFromTiled | src/GoogleIt/text_processor.py:99-107 | with step ≤ size, the windows tile the paragraphs: full-size windows one step apart, then a shorter trailing window ending at n |
| TextProcessor.TiledCovers | src/GoogleIt/text_processor.py:99-107 | tiling windows cover every paragraph index |
| TextProcessor.TiledStarts | src/GoogleIt/text_processor.py:98-103 | window j starts at start + j·step |
| TextProcessor.WindowsShape | src/GoogleIt/text_processor.py:98-107 | for 0 ≤ overlap < size: window j starts at j·(size − overlap); non-final windows have `chunk_size` paragraphs; consecutive windows share exactly `overlap_size` of them; the last ends at n and is shorter than `chunk_size`; every paragraph is covered |
| TextProcessor.WindowsFromCount | src/GoogleIt/text_processor.py:99-107 | the number of windows from a start index, in closed form |
| TextProcessor.ChunkCount | src/GoogleIt/text_processor.py:99-107 | the chunk count is k + 1, with k = (n − size) / step + 1 when n ≥ size and k = 0 otherwise |
| TextProcessor.NoParagraphsOneEmptyChunk | src/GoogleIt/text_processor.py:96-109 | an empty paragraph list yields the chunk list `[""]` |
| TextProcessor.TrailingEmptyOnExactFit | src/GoogleIt/text_processor.py:99-107 | with overlap 0 and n a multiple of `chunk_size`, the trailing window is empty and starts at n |
| TextProcessor.DefaultWindowsOf25 | src/GoogleIt/text_processor.py:84-107 | 25 paragraphs with size 10 and overlap 2 give windows [0,10), [8,18) and [16,25): three chunks |
| Context.Budget | src/GoogleIt/googleit.py:252 | `text[:49000]` is at most 49000 characters and a prefix of the text; it is the text itself when that is short, and exactly 49000 characters otherwise |
| Context.SelectRelevantChunks | src/GoogleIt/googleit.py:247-250 | the loop keeps, in order, exactly the chunks that are relevant and non-empty |
| Context.RelevantLinesExactly | src/GoogleIt/googleit.py:243-250 | a line is kept iff it is a non-empty line of the downloaded text whose similarity with the reference is ≥ 0.2; kept lines keep their multiplicity |
| Context.WithDocument | src/GoogleIt/googleit.py:242-256 | the model is queried with the budgeted concatenation of the relevant lines, judged against the reference document's text |
| Context.WithoutDocument | src/GoogleIt/googleit.py:269-272 | the model is queried with the budgeted concatenation of the 10/2 paragraph windows |
| Context.ContextsWithinBudget | src/GoogleIt/googleit.py:252-270 | corollary of `Budget`: both contexts are at most 49000 characters and are prefixes of their separator-less concatenations |
| Context.DownloadTargets | src/GoogleIt/googleit.py:297-299 | as written: each of the zipped URL/domain pairs is saved as `PDFFiles/<domain>.pdf`, and `pdf_path` ends as the last saved path, or as the caller's value when nothing was saved |
| Context.RebindingTakesDocumentBranch | src/GoogleIt/googleit.py:297-305 | as written: a call without a reference document that selects one page leaves `pdf_path` not None, so `with_document` is taken |
| Context.Get | src/GoogleIt/googleit.py:286-310 | the corrected `get`: without a reference document the answer comes from the merged pages' paragraph windows; with one, from the merged text's lines relevant to it |
| PalmModel.FirstTextModel | src/GoogleIt/palm_model.py:66-71 | None iff no listed model supports `generateText`; otherwise the first listed one that does |
| PalmModel.Replace | src/GoogleIt/palm_model.py:84 | `str.replace` of one character by a string without it leaves no occurrence of the character |
| PalmModel.ReplaceAppend | src/GoogleIt/palm_model.py:84 | replacing distributes over concatenation |
| PalmModel.EscapeIsOnePass | src/GoogleIt/palm_model.py:84 | the chain of three replaces equals one pass that deletes `'` and `"` and turns each newline into a space |
| PalmModel.EscapeIsClean | src/GoogleIt/palm_model.py:84 | the escaped passage contains no `'`, `"` or newline |
| PalmModel.EscapeLength | src/GoogleIt/palm_model.py:84 | the escaped passage is shorter than the input by exactly the number of quote characters |
| PalmModel.EscapeKeepsClean | src/GoogleIt/palm_model.py:84 | a passage without quotes or newlines is left unchanged, so every other character is kept in order |
| PalmModel.EscapeIdempotent | src/GoogleIt/palm_model.py:84 | escaping an escaped passage changes nothing |
| PalmModel.PassageEscapedOnce | src/GoogleIt/palm_model.py:84-93 | a passage and its escaped form give the same prompt, and the passage in the prompt is clean |
| PalmModel.QuestionVerbatim | src/GoogleIt/palm_model.py:92 | the question is not escaped: two questions that give the same prompt are equal |
| PalmModel.QuoteInPassageDropped | src/GoogleIt/palm_model.py:84-93 | deleting a quote character anywhere in the passage does not change the prompt |
| PalmModel.Palm2Model.constructor | src/GoogleIt/palm_model.py:54-56 | a new client has no model |
| PalmModel.Palm2Model.Init | src/GoogleIt/palm_model.py:58-71 | sets `model` to the first text-generating listed model; if there is none, reports the error and leaves `model` unchanged |
| PalmModel.Palm2Model.Query | src/GoogleIt/palm_model.py:100-123 | refuses while `model` is None; otherwise sends the prompt for the question and document, with 3 candidates, temperature 0.2 and 100 output tokens |
| PalmModel.QueryBeforeInit | src/GoogleIt/palm_model.py:111-112 | a fresh client refuses every query |
| PalmModel.QueryAfterFailedInit | src/GoogleIt/palm_model.py:68-69 | a failed `init` reports the error and the client still refuses queries |
| PalmModel.QueryAfterInit | src/GoogleIt/palm_model.py:66-71 | after `init` succeeds, queries go to the first text-generating listed model, with the prompt for the question |

## Left out

- Network, browser and file I/O are left out:
  - the Google search request and HTML parsing (links come in as `href` strings);
  - `converter.py` (Selenium and Chrome DevTools printing);
  - `save_url_to_pdf`;
  - `combine_pdf`;
  - the PDF-to-DOCX conversion and DOCX loading (paragraphs come in as strings);
  - the scratch-directory reset in `get`;
  - `palm.configure`, `palm.list_models` (the listed models come in as a parameter) and `palm.generate_text` (`Query` returns the request it would send rather than the generated answer).
- Relevance.ExtractRelevantContent: the similarity is a total function, so every line gets a score. scikit-learn's `TfidfVectorizer` raises `ValueError` (empty vocabulary) when neither preprocessed text holds a token of two or more word characters. That exception is raised in `extract_relevant_content` (googleit.py:219) and aborts the whole `with_document` call, whereas the model just drops the line or keeps it by its score. The same holds for `Context.RelevantLinesExactly` and `Context.WithDocument`.
- NLTK's `word_tokenize` and English stopword list, and scikit-learn's TF-IDF cosine similarity, are fields of the `Nlp` parameter. Floating-point scores are real numbers.
- `Text.Lower` and `Text.IsAlnum` follow ASCII. Python's Unicode case mapping and Unicode alphanumeric classes are not modelled. `Text.IsSpace` uses Python's Unicode whitespace set.
- The `GoogleIt` constructor's backend switch is not modelled. It depends on a `models` module that is not part of this model, and it calls the external `init` immediately.
- `get_top_urls` computes `results = 5 * urls_count` only for the search request, so it is left out. A link without an `href` makes the source raise a `TypeError`; the model's links always have one.
- TextProcessor.GetChunks: requires `chunk_size ≥ 1` and `overlap_size < chunk_size`; the only call site uses 10 and 2. Outside that range the source behaves differently and the model does not say how. With `overlap_size ≥ chunk_size` and at least `chunk_size` paragraphs, the start index never moves forward and the loop runs forever; with fewer paragraphs it never runs and one chunk holding all paragraphs is returned. With `chunk_size` 0 every slice in the loop is empty, and the loop ends only for a negative `overlap_size`. A negative `chunk_size` makes slice bounds count from the end of the list.
- PalmModel.MakePrompt and PalmModel.QuestionVerbatim: do not apply `textwrap.dedent`. The template's first line is flush left, so dedent removes no margin. It only empties whitespace-only lines: the template's last line, which the model omits, and any such line inside a multi-line question, which the model keeps. So `QuestionVerbatim` holds for the model but not for the source: `"a\n \nb"` and `"a\n\nb"` give the same prompt after dedent.
- Context.Get: `mergedParagraphs` stands for the paragraphs of the merged downloaded pages, and `referenceParagraphs` for those of the caller's document. The URLs it selects feed only the left-out downloads.
- `GeminiPro` and the other backends are not part of this model.

## Findings

| source | as written | input that shows it | evidently intended | confidence | as-written member | corrected member |
|---|---|---|---|---|---|---|
| src/GoogleIt/googleit.py:297-305 | the download loop assigns `pdf_path = "PDFFiles/" + domain + ".pdf"`, overwriting the caller's argument, so `if pdf_path is not None` tests the last saved page | `get(query)` with no `pdf_path` and one selected page with domain `example`: `pdf_path` becomes `PDFFiles/example.pdf`, and `with_document` compares the pages against one of themselves | `with_document` only when the caller passed a reference document, `without_document` otherwise | high, not executed | Context.RebindingTakesDocumentBranch | Context.Get |
