// Assembling the context passage sent to the model: the relevant lines of the downloaded
// pages when the caller gives a reference document, overlapping paragraph windows
// otherwise, both cut to a fixed character budget.

module Context {
  import opened Wrappers
  import opened Seqs
  import opened Text
  import opened Relevance
  import opened TextProcessor
  import opened PalmModel
  import opened TopUrls

  /** The context passed to the model is at most this many characters long. */
  const MaxContextChars: nat := 49000

  /** The similarity a line needs to reach to be kept. */
  const RelevanceThreshold: real := 0.2

  /** The windows used without a reference document: `get_chunks`' defaults. */
  const DefaultChunkSize: nat := 10
  const DefaultOverlapSize: nat := 2

  /** `text[:49000]`. */
  function Budget(text: string): (r: string)
    ensures |r| <= MaxContextChars && r <= text
    ensures |text| <= MaxContextChars ==> r == text
    ensures |text| > MaxContextChars ==> |r| == MaxContextChars
  {
    if |text| <= MaxContextChars then text else text[..MaxContextChars]
  }

  /** The test applied to each line: `extract_relevant_content` returns something truthy,
      that is, the line reaches the threshold and is not empty. */
  function IsRelevantChunk(inputDoc: string, nlp: Nlp): string -> bool {
    chunk => ExtractRelevantContent(chunk, inputDoc, RelevanceThreshold, nlp).Some? && chunk != ""
  }

  /** The lines of the downloaded text kept for the reference document. */
  function RelevantLines(googleDoc: string, inputDoc: string, nlp: Nlp): seq<string> {
    Filter(Split(googleDoc, "\n"), IsRelevantChunk(inputDoc, nlp))
  }

  /** The context built with a reference document. */
  function DocumentContext(googleDoc: string, inputDoc: string, nlp: Nlp): string {
    Budget(Join("", RelevantLines(googleDoc, inputDoc, nlp)))
  }

  /** The context built without one. */
  function ParagraphContext(paragraphs: seq<string>): string {
    Budget(Join("", ChunkTexts(paragraphs, Windows(|paragraphs|, DefaultChunkSize, DefaultOverlapSize))))
  }

  /** The loop of `with_document`: keeps the relevant chunks, in order. */
  method SelectRelevantChunks(chunks: seq<string>, inputDoc: string, nlp: Nlp) returns (relevantChunks: seq<string>)
    ensures relevantChunks == Filter(chunks, IsRelevantChunk(inputDoc, nlp))
  {
    relevantChunks := [];
    var i := 0;
    while i < |chunks|
      invariant 0 <= i <= |chunks|
      invariant relevantChunks == Filter(chunks[..i], IsRelevantChunk(inputDoc, nlp))
    {
      var relevantContent := ExtractRelevantContent(chunks[i], inputDoc, RelevanceThreshold, nlp);
      if relevantContent.Some? && relevantContent.value != "" {
        relevantChunks := relevantChunks + [relevantContent.value];
      }
      assert chunks[..i + 1] == chunks[..i] + [chunks[i]];
      i := i + 1;
    }
    assert chunks[..i] == chunks;
  }

  /** A line is kept exactly when it is a non-empty line of the downloaded text whose
      preprocessed form reaches similarity 0.2 with the preprocessed reference (the bound
      included), and it is kept as often as it occurs. */
  lemma RelevantLinesExactly(googleDoc: string, inputDoc: string, nlp: Nlp)
    ensures forall line :: line in RelevantLines(googleDoc, inputDoc, nlp) <==>
      && line in Split(googleDoc, "\n") && line != ""
      && nlp.similarity(PreprocessText(line, nlp), PreprocessText(inputDoc, nlp)) >= RelevanceThreshold
    ensures forall line :: line in RelevantLines(googleDoc, inputDoc, nlp) ==>
      multiset(RelevantLines(googleDoc, inputDoc, nlp))[line] == multiset(Split(googleDoc, "\n"))[line]
  {
    var lines, keep := Split(googleDoc, "\n"), IsRelevantChunk(inputDoc, nlp);
    forall line ensures line in Filter(lines, keep) <==> line in lines && keep(line) {
      FilterMembership(lines, keep, line);
    }
    forall line | line in Filter(lines, keep)
      ensures multiset(Filter(lines, keep))[line] == multiset(lines)[line]
    {
      FilterMembership(lines, keep, line);
      FilterCount(lines, keep, line);
    }
  }

  /** `with_document`: `referenceParagraphs` stands for the paragraphs of the caller's
      document, `googleDoc` for the text of the downloaded pages. */
  method WithDocument(palm: Palm2Model, query: string, googleDoc: string, referenceParagraphs: seq<string>, nlp: Nlp)
    returns (response: Result<Request, ModelError>)
    ensures response == Answer(palm.model,
      DocumentContext(googleDoc, Join(" ", Filter(referenceParagraphs, NonBlank)), nlp), query)
  {
    var inputDoc, _ := ExtractTextFromPdf(referenceParagraphs);
    var chunks := Split(googleDoc, "\n");
    var relevantChunks := SelectRelevantChunks(chunks, inputDoc, nlp);
    var docs := Budget(Join("", relevantChunks));
    response := palm.Query(docs, query);
  }

  /** `without_document`: windows of 10 paragraphs overlapping by 2, concatenated. */
  method WithoutDocument(palm: Palm2Model, query: string, paragraphs: seq<string>)
    returns (response: Result<Request, ModelError>)
    ensures response == Answer(palm.model, ParagraphContext(paragraphs), query)
  {
    var chunks := GetChunks(paragraphs, DefaultChunkSize, DefaultOverlapSize);
    var document := Budget(Join("", chunks));
    response := palm.Query(document, query);
  }

  /** Corollary of `Budget`: both contexts fit the budget and are the start of the full
      concatenation. */
  lemma ContextsWithinBudget(googleDoc: string, inputDoc: string, paragraphs: seq<string>, nlp: Nlp)
    ensures |DocumentContext(googleDoc, inputDoc, nlp)| <= MaxContextChars
    ensures DocumentContext(googleDoc, inputDoc, nlp) <= Join("", RelevantLines(googleDoc, inputDoc, nlp))
    ensures |ParagraphContext(paragraphs)| <= MaxContextChars
    ensures ParagraphContext(paragraphs) <=
      Join("", ChunkTexts(paragraphs, Windows(|paragraphs|, DefaultChunkSize, DefaultOverlapSize)))
  {
  }

  // ---------------------------------------------------------------------------
  // `get`

  /** The file a selected page is saved to. */
  function PdfPathFor(domain: string): string {
    "PDFFiles/" + domain + ".pdf"
  }

  /** The download loop of `get` as written: it saves each selected page under its domain's
      name and, in doing so, rebinds `pdf_path`, the caller's argument. */
  method DownloadTargets(pdfPath: Option<string>, urls: seq<string>, domains: seq<string>)
    returns (pdfPathAfter: Option<string>, saved: seq<(string, string)>)
    ensures |saved| == if |urls| <= |domains| then |urls| else |domains|
    ensures forall k :: 0 <= k < |saved| ==> saved[k] == (urls[k], PdfPathFor(domains[k]))
    ensures pdfPathAfter == if saved == [] then pdfPath else Some(saved[|saved| - 1].1)
  {
    pdfPathAfter, saved := pdfPath, [];
    var k := 0;
    while k < |urls| && k < |domains|
      invariant 0 <= k <= |urls| && k <= |domains| && |saved| == k
      invariant forall j :: 0 <= j < k ==> saved[j] == (urls[j], PdfPathFor(domains[j]))
      invariant pdfPathAfter == if k == 0 then pdfPath else Some(PdfPathFor(domains[k - 1]))
    {
      var target := PdfPathFor(domains[k]);
      pdfPathAfter := Some(target);
      saved := saved + [(urls[k], target)];
      k := k + 1;
    }
  }

  /** As written, a call without a reference document still takes the `with_document`
      branch as soon as one page was selected: `pdf_path` now names that page. */
  method RebindingTakesDocumentBranch(url: string, domain: string)
    returns (pdfPathAfter: Option<string>)
    ensures pdfPathAfter == Some(PdfPathFor(domain))
    ensures pdfPathAfter != None
  {
    var saved;
    pdfPathAfter, saved := DownloadTargets(None, [url], [domain]);
  }

  /** `get`, with the caller's reference document deciding the branch. `referenceParagraphs`
      stands for the paragraphs of the document at the caller's `pdf_path` (`None` when no
      path is given) and `mergedParagraphs` for those of the merged downloaded pages. */
  method Get(palm: Palm2Model, query: string, referenceParagraphs: Option<seq<string>>,
             hrefs: seq<string>, urlsCount: int, mergedParagraphs: seq<string>, nlp: Nlp)
    returns (response: Result<Request, ModelError>)
    ensures referenceParagraphs.None? ==>
      response == Answer(palm.model, ParagraphContext(Filter(mergedParagraphs, NonBlank)), query)
    ensures referenceParagraphs.Some? ==>
      response == Answer(palm.model,
        DocumentContext(Join(" ", Filter(mergedParagraphs, NonBlank)),
                        Join(" ", Filter(referenceParagraphs.value, NonBlank)), nlp), query)
  {
    // The selected pages are downloaded and merged into one document, whose paragraphs are
    // `mergedParagraphs`.
    var urls, domains := GetTopUrls(hrefs, urlsCount);
    var pdfText, paragraphs := ExtractTextFromPdf(mergedParagraphs);
    match referenceParagraphs
    case Some(reference) =>
      response := WithDocument(palm, query, pdfText, reference, nlp);
    case None =>
      response := WithoutDocument(palm, query, paragraphs);
  }
}
