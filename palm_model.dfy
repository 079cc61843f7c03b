// The PaLM 2 client: choosing a text model at `init`, refusing queries before a
// successful `init`, and building the prompt with an escaped reference passage.

module PalmModel {
  import opened Wrappers
  import opened Seqs

  /** A model as `palm.list_models()` describes it. */
  datatype ModelDescriptor = ModelDescriptor(name: string, supportedGenerationMethods: seq<string>)

  const GenerateText: string := "generateText"

  predicate SupportsText(m: ModelDescriptor) {
    GenerateText in m.supportedGenerationMethods
  }

  /** `models[0]` of the list of text-generating models, or `None` when that list is empty. */
  function FirstTextModel(listed: seq<ModelDescriptor>): (r: Option<ModelDescriptor>)
    ensures r.None? <==> forall k :: 0 <= k < |listed| ==> !SupportsText(listed[k])
    ensures r.Some? ==>
      exists i :: 0 <= i < |listed| && listed[i] == r.value && SupportsText(listed[i]) &&
                  forall j :: 0 <= j < i ==> !SupportsText(listed[j])
  {
    FilterFirst(listed, SupportsText);
    var models := Filter(listed, SupportsText);
    if models == [] then None else Some(models[0])
  }

  // ---------------------------------------------------------------------------
  // The passage escape: three `str.replace` calls in a row.

  /** `s.replace(c, with)` for a one-character pattern: every `c` becomes `with`. */
  function Replace(s: string, c: char, with: string): (r: string)
    ensures c !in with ==> c !in r
    decreases |s|
  {
    if s == [] then [] else (if s[0] == c then with else [s[0]]) + Replace(s[1..], c, with)
  }

  lemma {:induction false} ReplaceAppend(a: string, b: string, c: char, with: string)
    ensures Replace(a + b, c, with) == Replace(a, c, with) + Replace(b, c, with)
    decreases |a|
  {
    if a != [] {
      assert (a + b)[0] == a[0] && (a + b)[1..] == a[1..] + b;
      var x := if a[0] == c then with else [a[0]];
      assert Replace(a + b, c, with) == x + Replace(a[1..] + b, c, with);
      ReplaceAppend(a[1..], b, c, with);
      assert x + (Replace(a[1..], c, with) + Replace(b, c, with))
          == (x + Replace(a[1..], c, with)) + Replace(b, c, with);
    } else {
      assert a + b == b;
    }
  }

  /** The escape as written: drop `'`, drop `"`, turn each newline into a space. */
  function Escape(passage: string): string {
    Replace(Replace(Replace(passage, '\'', ""), '"', ""), '\n', " ")
  }

  /** What the escape does to one character. */
  function EscapeChar(c: char): string {
    if c == '\'' || c == '"' then "" else if c == '\n' then " " else [c]
  }

  /** The escape as a single left-to-right pass over the passage. */
  function Escaped(s: string): string
    decreases |s|
  {
    if s == [] then [] else EscapeChar(s[0]) + Escaped(s[1..])
  }

  lemma {:induction false} EscapedAppend(a: string, b: string)
    ensures Escaped(a + b) == Escaped(a) + Escaped(b)
    decreases |a|
  {
    if a != [] {
      assert (a + b)[0] == a[0] && (a + b)[1..] == a[1..] + b;
      assert Escaped(a + b) == EscapeChar(a[0]) + Escaped(a[1..] + b);
      EscapedAppend(a[1..], b);
      assert EscapeChar(a[0]) + (Escaped(a[1..]) + Escaped(b))
          == (EscapeChar(a[0]) + Escaped(a[1..])) + Escaped(b);
    } else {
      assert a + b == b;
    }
  }

  /** The chain of three replacements is the one-pass escape. */
  lemma {:induction false} EscapeIsOnePass(s: string)
    ensures Escape(s) == Escaped(s)
    decreases |s|
  {
    if s != [] {
      var head, tail := [s[0]], s[1..];
      assert s == head + tail;
      var r1 := Replace(head, '\'', "");
      ReplaceAppend(head, tail, '\'', "");
      ReplaceAppend(r1, Replace(tail, '\'', ""), '"', "");
      var r2 := Replace(r1, '"', "");
      ReplaceAppend(r2, Replace(Replace(tail, '\'', ""), '"', ""), '\n', " ");
      assert Replace(r2, '\n', " ") == EscapeChar(s[0]);
      EscapeIsOnePass(tail);
    }
  }

  /** A passage the escape has nothing to do on. */
  predicate Clean(s: string) {
    '\'' !in s && '"' !in s && '\n' !in s
  }

  /** The escaped passage contains no `'`, no `"` and no newline. */
  lemma {:induction false} EscapeIsClean(s: string)
    ensures Clean(Escape(s))
  {
    EscapeIsOnePass(s);
    EscapedIsClean(s);
  }

  lemma {:induction false} EscapedIsClean(s: string)
    ensures Clean(Escaped(s))
    decreases |s|
  {
    if s != [] {
      EscapedIsClean(s[1..]);
    }
  }

  /** The number of quote characters the escape deletes. */
  function Quotes(s: string): nat {
    multiset(s)['\''] + multiset(s)['"']
  }

  /** Quotes are deleted and each newline becomes one space, so the escaped passage is
      shorter by exactly the number of quotes. */
  lemma {:induction false} EscapeLength(s: string)
    ensures |Escape(s)| == |s| - Quotes(s)
  {
    EscapeIsOnePass(s);
    EscapedLength(s);
  }

  lemma {:induction false} EscapedLength(s: string)
    ensures |Escaped(s)| == |s| - Quotes(s)
    decreases |s|
  {
    if s != [] {
      assert s == [s[0]] + s[1..];
      assert multiset(s) == multiset([s[0]]) + multiset(s[1..]);
      EscapedLength(s[1..]);
    }
  }

  /** Every character other than a quote or a newline is kept, in order: on a passage
      without them the escape is the identity. */
  lemma {:induction false} EscapeKeepsClean(s: string)
    requires Clean(s)
    ensures Escape(s) == s
  {
    EscapeIsOnePass(s);
    EscapedKeepsClean(s);
  }

  lemma {:induction false} EscapedKeepsClean(s: string)
    requires Clean(s)
    ensures Escaped(s) == s
    decreases |s|
  {
    if s != [] {
      assert s == [s[0]] + s[1..];
      assert s[0] in s;
      EscapedKeepsClean(s[1..]);
    }
  }

  /** Escaping an escaped passage changes nothing. */
  lemma EscapeIdempotent(s: string)
    ensures Escape(Escape(s)) == Escape(s)
  {
    EscapeIsClean(s);
    EscapeKeepsClean(Escape(s));
  }

  // ---------------------------------------------------------------------------
  // The prompt.

  /** The indentation of the template's continuation lines. */
  const Margin: string := "            "

  /** The fixed instructions that open every prompt. */
  const Instructions: string :=
    "You are a helpful and informative bot that answers questions using text from the reference passage included below. "
    + Margin + "Be sure to respond in a complete sentence, being comprehensive, including all relevant background information. "
    + Margin + "However, you are talking to a non-technical audience, so be sure to break down complicated concepts and "
    + Margin + "strike a friendly and conversational tone. "
    + Margin + "The length of the response should be relevant to the prompt. Provide longer responses only if asked\n"
    + Margin + "If the passage is irrelevant to the answer, you may ignore it.\n"
    + Margin + "Redraft the response properly with proper sentence formation. Make sure the response length is reasonable and readable\n"

  /** Everything before the question. */
  const QuestionOpen: string := Instructions + Margin + "QUESTION: '"

  /** Everything after the escaped passage. */
  const PassageClose: string := "'\n\n" + Margin + "ANSWER:\n"

  /** Everything between the question and the escaped passage. */
  function AfterQuestion(escaped: string): string {
    "'\n" + Margin + "PASSAGE: '" + escaped + PassageClose
  }

  /** `make_prompt`: the question goes in as given, the passage escaped. */
  function MakePrompt(query: string, relevantPassage: string): string {
    QuestionOpen + query + AfterQuestion(Escape(relevantPassage))
  }

  /** Only the passage is escaped: a passage and its escaped form give the same prompt, and
      the prompt holds no quote or newline from the passage. */
  lemma PassageEscapedOnce(query: string, relevantPassage: string)
    ensures MakePrompt(query, relevantPassage) == MakePrompt(query, Escape(relevantPassage))
    ensures Clean(Escape(relevantPassage))
  {
    EscapeIdempotent(relevantPassage);
    EscapeIsClean(relevantPassage);
  }

  /** The question is not escaped: different questions give different prompts, even when
      they differ only in quotes or newlines. */
  lemma QuestionVerbatim(q1: string, q2: string, relevantPassage: string)
    requires MakePrompt(q1, relevantPassage) == MakePrompt(q2, relevantPassage)
    ensures q1 == q2
  {
    var tail := AfterQuestion(Escape(relevantPassage));
    var p1, p2 := QuestionOpen + q1 + tail, QuestionOpen + q2 + tail;
    assert |q1| == |q2| by {
      assert |p1| == |p2|;
    }
    assert p1[|QuestionOpen|..|QuestionOpen| + |q1|] == q1;
    assert p2[|QuestionOpen|..|QuestionOpen| + |q2|] == q2;
  }

  /** Deleting one quote from the passage does not change the prompt. */
  lemma QuoteInPassageDropped(query: string, before: string, after: string, q: char)
    requires q == '\'' || q == '"'
    ensures MakePrompt(query, before + [q] + after) == MakePrompt(query, before + after)
  {
    assert Escaped([q]) == [];
    EscapedSkip(before, after, [q]);
    EscapeIsOnePass(before + [q] + after);
    EscapeIsOnePass(before + after);
  }

  lemma EscapedSkip(before: string, after: string, dropped: string)
    requires Escaped(dropped) == []
    ensures Escaped(before + dropped + after) == Escaped(before + after)
  {
    EscapedAppend(before, dropped);
    EscapedAppend(before + dropped, after);
    EscapedAppend(before, after);
  }

  // ---------------------------------------------------------------------------
  // The client.

  datatype ModelError =
    | NoTextModel      // "No models with text generation support found."
    | NotInitialized   // "The language model is not initialized. ..."

  /** The `palm.generate_text` call `query` makes: the model, the prompt and its fixed
      sampling settings. */
  datatype Request = Request(
    model: ModelDescriptor, prompt: string,
    candidateCount: nat, temperature: real, maxOutputTokens: nat)

  const CandidateCount: nat := 3
  const Temperature: real := 0.2
  const MaxOutputTokens: nat := 100

  /** What `query` does for a client whose chosen model is `model`. */
  function Answer(model: Option<ModelDescriptor>, document: string, question: string): Result<Request, ModelError> {
    match model
    case None => Failure(NotInitialized)
    case Some(m) => Success(Request(m, MakePrompt(question, document), CandidateCount, Temperature, MaxOutputTokens))
  }

  class Palm2Model {
    /** The chosen model; `None` until `Init` succeeds. */
    var model: Option<ModelDescriptor>

    constructor()
      ensures model == None
    {
      model := None;
    }

    /** `init`, with `listed` standing for what `palm.list_models()` returns. Picks the
        first text-generating model, or fails and leaves the client as it was. */
    method Init(listed: seq<ModelDescriptor>) returns (err: Option<ModelError>)
      modifies this
      ensures FirstTextModel(listed).None? ==> err == Some(NoTextModel) && model == old(model)
      ensures FirstTextModel(listed).Some? ==> err == None && model == FirstTextModel(listed)
    {
      var models := Filter(listed, SupportsText);
      if models == [] {
        return Some(NoTextModel);
      }
      model := Some(models[0]);
      err := None;
    }

    /** `query`: refuses while no model is chosen, otherwise sends the prompt for `question`
        with `document` as the passage. */
    method Query(document: string, question: string) returns (r: Result<Request, ModelError>)
      ensures model.None? ==> r == Failure(NotInitialized)
      ensures model.Some? ==> r == Success(Request(model.value, MakePrompt(question, document),
                                                   CandidateCount, Temperature, MaxOutputTokens))
    {
      if model.None? {
        return Failure(NotInitialized);
      }
      var prompt := MakePrompt(question, document);
      r := Success(Request(model.value, prompt, CandidateCount, Temperature, MaxOutputTokens));
    }
  }

  /** A fresh client refuses every query. */
  method QueryBeforeInit(document: string, question: string) returns (r: Result<Request, ModelError>)
    ensures r == Failure(NotInitialized)
  {
    var palm := new Palm2Model();
    r := palm.Query(document, question);
  }

  /** A failed `init` leaves a fresh client refusing queries. */
  method QueryAfterFailedInit(listed: seq<ModelDescriptor>, document: string, question: string)
    returns (err: Option<ModelError>, r: Result<Request, ModelError>)
    requires forall k :: 0 <= k < |listed| ==> !SupportsText(listed[k])
    ensures err == Some(NoTextModel) && r == Failure(NotInitialized)
  {
    var palm := new Palm2Model();
    err := palm.Init(listed);
    r := palm.Query(document, question);
  }

  /** After a successful `init`, queries go to the first text-generating model listed. */
  method QueryAfterInit(listed: seq<ModelDescriptor>, i: nat, document: string, question: string)
    returns (r: Result<Request, ModelError>)
    requires i < |listed| && SupportsText(listed[i])
    requires forall j :: 0 <= j < i ==> !SupportsText(listed[j])
    ensures r.Success? && r.value.model == listed[i]
    ensures r.value.prompt == MakePrompt(question, document)
  {
    var palm := new Palm2Model();
    var err := palm.Init(listed);
    r := palm.Query(document, question);
  }
}
