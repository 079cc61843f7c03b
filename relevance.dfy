// Text normalisation and the relevance decision. The tokenizer, the stopword list and the
// TF-IDF cosine similarity come from NLTK and scikit-learn and are parameters here.

module Relevance {
  import opened Wrappers
  import opened Seqs
  import opened Text

  /** The language tools the pipeline relies on: `word_tokenize`, the English stopword set
      and the cosine similarity of the TF-IDF vectors of two texts. */
  datatype Nlp = Nlp(
    tokenize: string -> seq<string>,
    stopwords: set<string>,
    similarity: (string, string) -> real)

  /** The comprehension's test: alphanumeric and not a stopword. */
  function KeepToken(stopwords: set<string>): string -> bool {
    token => IsAlnum(token) && token !in stopwords
  }

  /** The tokens of the lower-cased text that survive the test, in order. */
  function KeptTokens(text: string, nlp: Nlp): seq<string> {
    Filter(nlp.tokenize(Lower(text)), KeepToken(nlp.stopwords))
  }

  /** `preprocess_text`: the surviving tokens joined by single spaces. */
  function PreprocessText(text: string, nlp: Nlp): string {
    Join(" ", KeptTokens(text, nlp))
  }

  /** The preprocessed text consists of exactly the tokens of the lower-cased text that are
      alphanumeric and not stopwords, each kept as often as it occurs and in order, so
      splitting it on spaces gives them back; it is empty exactly when none survives. */
  lemma PreprocessTextWords(text: string, nlp: Nlp)
    ensures PreprocessText(text, nlp) == "" <==> KeptTokens(text, nlp) == []
    ensures KeptTokens(text, nlp) != [] ==> Split(PreprocessText(text, nlp), " ") == KeptTokens(text, nlp)
    ensures forall t :: t in KeptTokens(text, nlp) <==>
      t in nlp.tokenize(Lower(text)) && IsAlnum(t) && t !in nlp.stopwords
    ensures forall t ::
      (multiset(KeptTokens(text, nlp))[t] ==
       if IsAlnum(t) && t !in nlp.stopwords then multiset(nlp.tokenize(Lower(text)))[t] else 0)
  {
    var tokens := nlp.tokenize(Lower(text));
    var kept := KeptTokens(text, nlp);
    var keep := KeepToken(nlp.stopwords);
    assert forall k :: 0 <= k < |kept| ==> IsAlnum(kept[k]) && kept[k] !in nlp.stopwords by {
      forall k | 0 <= k < |kept| ensures keep(kept[k]) { }
    }
    if kept != [] {
      assert |Join(" ", kept)| >= |kept[0]| > 0;
      assert forall k :: 0 <= k < |kept| ==> ' ' !in kept[k];
      JoinSplit(kept, ' ');
    }
    forall t ensures t in kept <==> t in tokens && keep(t) {
      FilterMembership(tokens, keep, t);
    }
    forall t ensures multiset(kept)[t] == if keep(t) then multiset(tokens)[t] else 0 {
      FilterCount(tokens, keep, t);
    }
  }

  /** `extract_relevant_content`: the input when the similarity of the two preprocessed
      texts reaches the threshold, `None` otherwise. */
  function ExtractRelevantContent(inputText: string, mainDocument: string, threshold: real, nlp: Nlp): (r: Option<string>)
    ensures r.Some? <==>
      nlp.similarity(PreprocessText(inputText, nlp), PreprocessText(mainDocument, nlp)) >= threshold
    ensures r.Some? ==> r.value == inputText
  {
    var score := nlp.similarity(PreprocessText(inputText, nlp), PreprocessText(mainDocument, nlp));
    if score >= threshold then Some(inputText) else None
  }

  /** Corollary of the threshold test: content kept at one threshold is
      kept at every lower one. */
  lemma RelevanceMonotone(inputText: string, mainDocument: string, low: real, high: real, nlp: Nlp)
    requires low <= high
    requires ExtractRelevantContent(inputText, mainDocument, high, nlp).Some?
    ensures ExtractRelevantContent(inputText, mainDocument, low, nlp) == Some(inputText)
  {
  }
}
