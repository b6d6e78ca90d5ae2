/** `PdfService.processPdfContent`, which cleans the parsed text and asks
    the orchestrator for a summary and for the references. Reading the file
    and running the PDF parser are a parameter: the parser's text, or `None`
    when reading or parsing throws. */
module PdfService {
  import opened Wrappers
  import opened Text
  import opened TextCleaning
  import opened OpenAiService
  import opened Agents
  import opened Orchestrator

  // ------------------------------------------------------- processPdfContent

  const SummaryTask := "generate summary of this text"
  const ReferencesTask := "find references in this document"

  const ExtractionFailed := "Failed to extract text from PDF"

  /** The object `processPdfContent` returns. */
  datatype PdfContent = PdfContent(text: string, summary: string, references: seq<string>)

  /** `metadata?.references || []` */
  function MetadataReferences(m: Metadata): (refs: seq<string>)
    ensures m.ReferenceMeta? ==> refs == m.references
    ensures !m.ReferenceMeta? ==> refs == []
  {
    if m.ReferenceMeta? then m.references else []
  }

  /** Only the Summary agent takes the summary request. */
  lemma SummaryTaskRouting()
    ensures Eligible(SummaryTask) == [Summary]
  {
    SummaryTaskText();
    SummaryTaskLetters();
    RoutedToSummaryOnly(SummaryTask);
  }

  lemma SummaryTaskParts()
    ensures SummaryTask == "generate " + "summary" + " of this text"
  {
  }

  lemma SummaryTaskLowercase()
    ensures forall i :: 0 <= i < |SummaryTask| ==> !IsUpper(SummaryTask[i])
  {
  }

  lemma SummaryTaskText()
    ensures Lower(SummaryTask) == SummaryTask && Contains(SummaryTask, "summary")
  {
    SummaryTaskLowercase();
    LowerOfLowercase(SummaryTask);
    SummaryTaskParts();
    InfixFacts("generate ", "summary", " of this text");
  }

  lemma SummaryTaskLetters()
    ensures SummaryTask[0] == 'g' && '?' !in SummaryTask && 'c' !in SummaryTask
  {
  }

  /** A lower-case task naming a summary, with no question mark and no `c`
      (so no citation and no references), goes to the Summary agent alone. */
  lemma RoutedToSummaryOnly(t: string)
    requires Lower(t) == t && Contains(t, "summary")
    requires t != [] && t[0] != 'w' && t[0] != 'h' && '?' !in t && 'c' !in t
    ensures Eligible(t) == [Summary]
  {
    SummaryCanHandleIff(t);
    NoQuestion(t);
    MissingCharNotContained(t, "citation", 'c');
    MissingCharNotContained(t, "cite", 'c');
    CitationCanHandleIff(t);
    MissingCharNotContained(t, "references", 'c');
    ReferenceCanHandleIff(t);
    SingleEligible(t, Summary);
  }

  /** Only the Reference agent takes the references request. */
  lemma ReferencesTaskRouting()
    ensures Eligible(ReferencesTask) == [Reference]
  {
    ReferencesTaskText();
    ReferencesTaskLetters();
    ReferencesTaskMoreLetters();
    ReferencesTaskNoCi();
    RoutedToReferenceOnly(ReferencesTask);
  }

  lemma ReferencesTaskParts()
    ensures ReferencesTask == "find " + "references" + " in this document"
  {
  }

  lemma ReferencesTaskLowercase()
    ensures forall i :: 0 <= i < |ReferencesTask| ==> !IsUpper(ReferencesTask[i])
  {
  }

  lemma ReferencesTaskText()
    ensures Lower(ReferencesTask) == ReferencesTask && Contains(ReferencesTask, "references")
  {
    ReferencesTaskLowercase();
    LowerOfLowercase(ReferencesTask);
    ReferencesTaskParts();
    InfixFacts("find ", "references", " in this document");
  }

  lemma ReferencesTaskLetters()
    ensures ReferencesTask[0] == 'f' && '?' !in ReferencesTask && 'z' !in ReferencesTask
  {
  }

  lemma ReferencesTaskMoreLetters()
    ensures 'y' !in ReferencesTask && 'b' !in ReferencesTask && 'v' !in ReferencesTask
  {
  }

  lemma ReferencesTaskNoCi()
    ensures forall i :: 0 <= i < |ReferencesTask| - 1 ==> !(ReferencesTask[i] == 'c' && ReferencesTask[i + 1] == 'i')
  {
  }

  /** A lower-case task naming references, with no question mark, none of
      the letters `z`, `y`, `b`, `v` and never `ci`, goes to the Reference
      agent alone. */
  lemma RoutedToReferenceOnly(t: string)
    requires Lower(t) == t && Contains(t, "references")
    requires t != [] && t[0] != 'w' && t[0] != 'h' && '?' !in t
    requires 'z' !in t && 'y' !in t && 'b' !in t && 'v' !in t
    requires forall i :: 0 <= i < |t| - 1 ==> !(t[i] == 'c' && t[i + 1] == 'i')
    ensures Eligible(t) == [Reference]
  {
    NoSummaryWord(t);
    NoQuestion(t);
    NoCitationWord(t);
    ReferenceCanHandleIff(t);
    SingleEligible(t, Reference);
  }

  lemma NoSummaryWord(t: string)
    requires Lower(t) == t && 'z' !in t && 'y' !in t && 'b' !in t && 'v' !in t
    ensures !SummaryCanHandle(t)
  {
    MissingCharNotContained(t, "summarize", 'z');
    MissingCharNotContained(t, "summary", 'y');
    MissingCharNotContained(t, "brief", 'b');
    MissingCharNotContained(t, "overview", 'v');
    SummaryCanHandleIff(t);
  }

  lemma NoCitationWord(t: string)
    requires Lower(t) == t
    requires forall i :: 0 <= i < |t| - 1 ==> !(t[i] == 'c' && t[i + 1] == 'i')
    ensures !CitationCanHandle(t)
  {
    MissingPairNotContained(t, "citation", 0);
    MissingPairNotContained(t, "cite", 0);
    CitationCanHandleIff(t);
  }

  /** A task without a question mark whose first character is not `w`,
      `h`, `W` or `H` is no question. */
  lemma NoQuestion(t: string)
    requires t != [] && LowerChar(t[0]) != 'w' && LowerChar(t[0]) != 'h'
    requires '?' !in t
    ensures !QaCanHandle(t)
  {
    TrimSubset(t, '?');
    var l := Lower(t);
    assert l[0] == LowerChar(t[0]);
    assert !StartsWith(l, "what") by { if |l| >= 4 { assert l[..4][0] == l[0]; } }
    assert !StartsWith(l, "how") by { if |l| >= 3 { assert l[..3][0] == l[0]; } }
    assert !StartsWith(l, "why") by { if |l| >= 3 { assert l[..3][0] == l[0]; } }
    var r := Trim(t);
    assert !EndsWith(r, "?") by {
      if |r| >= 1 {
        assert r[|r| - 1..][0] == r[|r| - 1];
      }
    }
  }

  /** What the orchestrator answers to the summary request, whatever the
      context. */
  lemma SummaryRequestRouted(chat: Chat, text: string)
    ensures ProcessRequest(chat, SummaryTask, text).Ok? <==> OpenAiService.SummarizeText(chat, SummaryTask).Ok?
    ensures ProcessRequest(chat, SummaryTask, text).Ok? ==>
              ProcessRequest(chat, SummaryTask, text).value.message == OpenAiService.SummarizeText(chat, SummaryTask).value
    ensures ProcessRequest(chat, SummaryTask, text).Err? ==>
              ProcessRequest(chat, SummaryTask, text).error == OrchestrationFailure(AgentFailure(Summary, SummaryFailed))
  {
    SummaryTaskRouting();
    OnlyEligibleAgent(chat, SummaryTask, text, Summary);
  }

  /** What the orchestrator answers to the references request, whatever the
      context. */
  lemma ReferencesRequestRouted(chat: Chat, text: string)
    ensures ProcessRequest(chat, ReferencesTask, text).Ok? <==> OpenAiService.ExtractReferences(chat, ReferencesTask).Ok?
    ensures ProcessRequest(chat, ReferencesTask, text).Ok? ==>
              MetadataReferences(ProcessRequest(chat, ReferencesTask, text).value.metadata)
              == OpenAiService.ExtractReferences(chat, ReferencesTask).value
    ensures ProcessRequest(chat, ReferencesTask, text).Err? ==>
              ProcessRequest(chat, ReferencesTask, text).error == OrchestrationFailure(AgentFailure(Reference, ReferencesFailed))
  {
    ReferencesTaskRouting();
    OnlyEligibleAgent(chat, ReferencesTask, text, Reference);
  }

  /** `processPdfContent`: clean the parsed text, then route the summary
      request and the references request through the orchestrator with the
      text as context. An orchestrator failure is rethrown unchanged; the
      `!summary || !references` test can never fire, as both are objects. */
  function ProcessPdfContent(chat: Chat, parsed: Option<string>): (r: Result<PdfContent, string>)
    ensures parsed.None? ==> r == Err(ExtractionFailed)
    ensures r.Ok? ==> && parsed.Some?
                      && OpenAiService.SummarizeText(chat, SummaryTask).Ok?
                      && OpenAiService.ExtractReferences(chat, ReferencesTask).Ok?
                      && r.value.text == CleanExtractedText(parsed.value)
                      && r.value.summary == OpenAiService.SummarizeText(chat, SummaryTask).value
                      && r.value.references == OpenAiService.ExtractReferences(chat, ReferencesTask).value
    ensures parsed.Some? ==>
              (r.Err? <==> OpenAiService.SummarizeText(chat, SummaryTask).Err?
                           || OpenAiService.ExtractReferences(chat, ReferencesTask).Err?)
    ensures parsed.Some? && OpenAiService.SummarizeText(chat, SummaryTask).Err? ==>
              r == Err(OrchestrationFailure(AgentFailure(Summary, SummaryFailed)))
  {
    match parsed
    case None => Err(ExtractionFailed)
    case Some(raw) =>
      var text := CleanExtractedText(raw);
      SummaryRequestRouted(chat, text);
      ReferencesRequestRouted(chat, text);
      match ProcessRequest(chat, SummaryTask, text)
      case Err(e) => Err(e)
      case Ok(summary) =>
        match ProcessRequest(chat, ReferencesTask, text)
        case Err(e) => Err(e)
        case Ok(references) => Ok(PdfContent(text, summary.message, MetadataReferences(references.metadata)))
  }

  /** As written, the summary and the references do not depend on the
      document: the agents that take the two requests work on the request
      string and ignore the context that carries the text. */
  lemma DocumentIgnored(chat: Chat, raw1: string, raw2: string)
    ensures ProcessPdfContent(chat, Some(raw1)).Ok? <==> ProcessPdfContent(chat, Some(raw2)).Ok?
    ensures ProcessPdfContent(chat, Some(raw1)).Ok? ==>
              && ProcessPdfContent(chat, Some(raw1)).value.summary == ProcessPdfContent(chat, Some(raw2)).value.summary
              && ProcessPdfContent(chat, Some(raw1)).value.references == ProcessPdfContent(chat, Some(raw2)).value.references
  {
  }

  /** `processPdfContent` with the two requests answered from the document:
      the agents the orchestrator picks for the two requests are run on the
      cleaned text instead of the request string. */
  function ProcessPdfContentOnText(chat: Chat, parsed: Option<string>): (r: Result<PdfContent, string>)
    ensures parsed.None? ==> r == Err(ExtractionFailed)
    ensures r.Ok? ==> && parsed.Some?
                      && r.value.text == CleanExtractedText(parsed.value)
                      && OpenAiService.SummarizeText(chat, r.value.text).Ok?
                      && OpenAiService.ExtractReferences(chat, r.value.text).Ok?
                      && r.value.summary == OpenAiService.SummarizeText(chat, r.value.text).value
                      && r.value.references == OpenAiService.ExtractReferences(chat, r.value.text).value
    ensures parsed.Some? ==>
              (r.Err? <==> OpenAiService.SummarizeText(chat, CleanExtractedText(parsed.value)).Err?
                           || OpenAiService.ExtractReferences(chat, CleanExtractedText(parsed.value)).Err?)
  {
    match parsed
    case None => Err(ExtractionFailed)
    case Some(raw) =>
      var text := CleanExtractedText(raw);
      match SummaryProcess(chat, text)
      case Err(e) => Err(OrchestrationFailure(e))
      case Ok(summary) =>
        match ReferenceProcess(chat, text)
        case Err(e) => Err(OrchestrationFailure(e))
        case Ok(references) => Ok(PdfContent(text, summary.message, MetadataReferences(references.metadata)))
  }

  /** With the document passed on, the summary follows the document: two
      texts that clean differently reach the backend as different prompts, and
      a backend that answers them differently gives different summaries. */
  lemma SummaryFollowsDocument(chat: Chat, raw1: string, raw2: string)
    requires ProcessPdfContentOnText(chat, Some(raw1)).Ok? && ProcessPdfContentOnText(chat, Some(raw2)).Ok?
    requires chat(SummaryPrompt(CleanExtractedText(raw1))).Content? && chat(SummaryPrompt(CleanExtractedText(raw1))).text != ""
    requires chat(SummaryPrompt(CleanExtractedText(raw2))).Content? && chat(SummaryPrompt(CleanExtractedText(raw2))).text != ""
    requires chat(SummaryPrompt(CleanExtractedText(raw1))) != chat(SummaryPrompt(CleanExtractedText(raw2)))
    ensures ProcessPdfContentOnText(chat, Some(raw1)).value.summary != ProcessPdfContentOnText(chat, Some(raw2)).value.summary
  {
  }
}
