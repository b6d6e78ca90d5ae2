/** The four capability agents. Each has a keyword test on the task string
    (`canHandle`) and a `process` that calls one OpenAI request and wraps the
    reply in an `AgentResponse` with a fixed confidence and typed metadata.
    Every `process` is modelled with the two arguments the orchestrator passes,
    `(task, context)`; the Summary and Reference agents declare only the first
    and so never see the context. */
module Agents {
  import opened Wrappers
  import opened Text
  import opened OpenAiService

  datatype AgentKind = Summary | QA | Citation | Reference

  /** The `metadata` object of each agent; its `type` field is `TypeTag`. */
  datatype Metadata =
    | SummaryMeta(wordCount: nat)
    | QaMeta(questionType: string)
    | CitationMeta(style: string)
    | ReferenceMeta(references: seq<string>, count: nat)

  function TypeTag(m: Metadata): string {
    match m
    case SummaryMeta(_) => "summary"
    case QaMeta(_) => "qa"
    case CitationMeta(_) => "citation"
    case ReferenceMeta(_, _) => "references"
  }

  datatype AgentResponse = AgentResponse(message: string, confidence: real, metadata: Metadata)

  function AgentName(kind: AgentKind): string {
    match kind
    case Summary => "Summary Agent"
    case QA => "QA Agent"
    case Citation => "Citation Agent"
    case Reference => "Reference Agent"
  }

  /** Interpolating an `Error` into a template literal renders `Error: <message>`. */
  function ErrorText(message: string): string {
    "Error: " + message
  }

  /** The message of the error an agent rethrows around a backend error. */
  function AgentFailure(kind: AgentKind, cause: string): string {
    AgentName(kind) + " failed: " + ErrorText(cause)
  }

  // ---------------------------------------------------------------- canHandle

  const SummaryKeywords: seq<string> := ["summarize", "summary", "brief", "overview", "generate summary"]
  const CitationKeywords: seq<string> := ["citation", "cite", "generate citation"]
  const ReferenceKeywords: seq<string> := ["extract references", "find references", "references"]

  predicate SummaryCanHandle(task: string) {
    ContainsAny(Lower(task), SummaryKeywords)
  }

  /** The `?` test trims the task; the prefix tests do not. */
  predicate QaCanHandle(task: string) {
    || EndsWith(Trim(task), "?")
    || StartsWith(Lower(task), "what")
    || StartsWith(Lower(task), "how")
    || StartsWith(Lower(task), "why")
  }

  predicate CitationCanHandle(task: string) {
    ContainsAny(Lower(task), CitationKeywords)
  }

  predicate ReferenceCanHandle(task: string) {
    ContainsAny(Lower(task), ReferenceKeywords)
  }

  predicate CanHandle(kind: AgentKind, task: string) {
    match kind
    case Summary => SummaryCanHandle(task)
    case QA => QaCanHandle(task)
    case Citation => CitationCanHandle(task)
    case Reference => ReferenceCanHandle(task)
  }

  /** A keyword that contains a shorter listed keyword adds nothing to the test. */
  lemma SubsumedKeyword(s: string, long: string, short: string, at: nat)
    requires OccursAt(long, short, at)
    ensures Contains(s, long) ==> Contains(s, short)
  {
    if Contains(s, long) {
      assert at <= |long|;
      ContainsTransitive(s, long, short);
    }
  }

  /** The Summary agent accepts exactly the tasks whose lower-case form
      contains "summarize", "summary", "brief" or "overview". */
  lemma SummaryCanHandleIff(task: string)
    ensures SummaryCanHandle(task) <==>
      || Contains(Lower(task), "summarize") || Contains(Lower(task), "summary")
      || Contains(Lower(task), "brief") || Contains(Lower(task), "overview")
  {
    var l := Lower(task);
    assert "generate summary"[9..16] == "summary";
    SubsumedKeyword(l, "generate summary", "summary", 9);
    if Contains(l, "summarize") { assert Contains(l, SummaryKeywords[0]); }
    if Contains(l, "summary") { assert Contains(l, SummaryKeywords[1]); }
    if Contains(l, "brief") { assert Contains(l, SummaryKeywords[2]); }
    if Contains(l, "overview") { assert Contains(l, SummaryKeywords[3]); }
  }

  /** The Citation agent accepts exactly the tasks containing "citation" or "cite". */
  lemma CitationCanHandleIff(task: string)
    ensures CitationCanHandle(task) <==> Contains(Lower(task), "citation") || Contains(Lower(task), "cite")
  {
    var l := Lower(task);
    assert "generate citation"[9..17] == "citation";
    SubsumedKeyword(l, "generate citation", "citation", 9);
    if Contains(l, "citation") { assert Contains(l, CitationKeywords[0]); }
    if Contains(l, "cite") { assert Contains(l, CitationKeywords[1]); }
  }

  /** The Reference agent accepts exactly the tasks containing "references". */
  lemma ReferenceCanHandleIff(task: string)
    ensures ReferenceCanHandle(task) <==> Contains(Lower(task), "references")
  {
    var l := Lower(task);
    assert "extract references"[8..18] == "references";
    assert "find references"[5..15] == "references";
    SubsumedKeyword(l, "extract references", "references", 8);
    SubsumedKeyword(l, "find references", "references", 5);
    if Contains(l, "references") { assert Contains(l, ReferenceKeywords[2]); }
  }

  /** The task the upload controller builds for a citation request,
      `generate citation in ${style} style`, is accepted by the Citation
      agent whatever the style. */
  lemma CitationTaskAccepted(style: string)
    ensures CitationCanHandle(CitationTask(style))
  {
    var rest := " in " + style + " style";
    CitationTaskParts(style);
    LowerAppend("generate " + "citation", rest);
    LowerAppend("generate ", "citation");
    LowerOfLowercase("citation");
    InfixFacts(Lower("generate "), "citation", Lower(rest));
    CitationCanHandleIff(CitationTask(style));
  }

  function CitationTask(style: string): string {
    "generate citation in " + style + " style"
  }

  lemma CitationTaskParts(style: string)
    ensures CitationTask(style) == "generate " + "citation" + (" in " + style + " style")
  {
    assert "generate citation in " == "generate " + "citation" + " in ";
  }

  /** Singular "reference" is not enough for the Reference agent. */
  lemma SingularReferenceRejected()
    ensures !ReferenceCanHandle("reference")
  {
    ReferenceCanHandleIff("reference");
    assert Lower("reference") == "reference";
  }

  /** A task starting with whitespace is a question only by its trailing '?':
      the what/how/why prefixes are tested on the untrimmed string. */
  lemma LeadingSpaceDefeatsPrefix(task: string)
    requires task != [] && IsSpace(task[0])
    ensures QaCanHandle(task) <==> EndsWith(Trim(task), "?")
  {
    var l := Lower(task);
    assert l[0] == task[0];
    assert !StartsWith(l, "what") by { if |l| >= 4 { assert l[..4][0] == l[0]; } }
    assert !StartsWith(l, "how") by { if |l| >= 3 { assert l[..3][0] == l[0]; } }
    assert !StartsWith(l, "why") by { if |l| >= 3 { assert l[..3][0] == l[0]; } }
  }

  // ------------------------------------------------------------ QA metadata

  /** The first matching prefix among what, how and why (checked in that
      order) of the lower-cased question, or "other". */
  function DetermineQuestionType(question: string): (r: string)
    ensures r in {"what", "how", "why", "other"}
    ensures r != "other" ==> StartsWith(Lower(question), r)
    ensures r == "other" <==>
      !StartsWith(Lower(question), "what") && !StartsWith(Lower(question), "how") && !StartsWith(Lower(question), "why")
  {
    var l := Lower(question);
    if StartsWith(l, "what") then "what"
    else if StartsWith(l, "how") then "how"
    else if StartsWith(l, "why") then "why"
    else "other"
  }

  /** A classified question type implies the QA agent accepts the task. */
  lemma QuestionTypeImpliesQa(question: string)
    ensures DetermineQuestionType(question) != "other" ==> QaCanHandle(question)
  {
  }

  /** The prefix test is not a word test: "However ..." is a "how" question. */
  lemma HoweverIsHow()
    ensures DetermineQuestionType("However, is it") == "how"
  {
    var l := Lower("However, is it");
    assert l == "however, is it";
    assert l[..4] != "what" by { assert l[..4][0] == 'h'; }
    assert l[..3] == "how";
  }

  // ------------------------------------------------------- citation style

  /** The style word at `j` of the lower-cased task, as the upper-cased capture
      and its length. The alternatives start with different letters, so at most
      one of them matches. */
  function StyleWordAt(l: string, j: nat): (r: Option<(string, nat)>)
    ensures r.Some? ==> r.value.0 in {"APA", "MLA", "CHICAGO"} && j + r.value.1 <= |l|
  {
    if OccursAt(l, "apa", j) then Some(("APA", 3))
    else if OccursAt(l, "mla", j) then Some(("MLA", 3))
    else if OccursAt(l, "chicago", j) then Some(("CHICAGO", 7))
    else None
  }

  /** The upper-cased capture of `/in\s+(APA|MLA|Chicago)\s+style/i` when the
      pattern matches at position `i`. Each `\s+` is followed by a letter, so
      the greedy run that consumes every whitespace character is the only one
      that can succeed: the match is decided without backtracking. */
  function StyleMatchAt(task: string, i: nat): (r: Option<string>)
    ensures r.Some? ==> r.value in {"APA", "MLA", "CHICAGO"}
    ensures r.Some? ==> OccursAt(Lower(task), "in", i)
  {
    var l := Lower(task);
    if !OccursAt(l, "in", i) then None
    else
      var j := SpaceRunEnd(task, i + 2);
      if j == i + 2 then None
      else match StyleWordAt(l, j)
        case None => None
        case Some(w) =>
          var n := SpaceRunEnd(task, j + w.1);
          if n > j + w.1 && OccursAt(l, "style", n) then Some(w.0) else None
  }

  predicate NoStyleMatchBetween(task: string, lo: nat, hi: nat) {
    forall k :: lo <= k < hi ==> StyleMatchAt(task, k).None?
  }

  /** The position of the leftmost match at or after `i`, or `|task| + 1`
      when there is none. */
  function FirstStyleIndex(task: string, i: nat): (j: nat)
    requires i <= |task|
    ensures i <= j <= |task| + 1
    ensures NoStyleMatchBetween(task, i, j)
    ensures j <= |task| ==> StyleMatchAt(task, j).Some?
    decreases |task| - i
  {
    if StyleMatchAt(task, i).Some? then i
    else if i == |task| then |task| + 1
    else FirstStyleIndex(task, i + 1)
  }

  /** `extractCitationStyle`: the capture of the leftmost match, upper-cased,
      or "APA" when the task names no style. */
  function ExtractCitationStyle(task: string): (r: string)
    ensures r in {"APA", "MLA", "CHICAGO"}
    ensures NoStyleMatchBetween(task, 0, |task| + 1) ==> r == "APA"
    ensures forall j :: 0 <= j <= |task| && StyleMatchAt(task, j).Some? && NoStyleMatchBetween(task, 0, j)
              ==> r == StyleMatchAt(task, j).value
  {
    var j := FirstStyleIndex(task, 0);
    if j <= |task| then StyleMatchAt(task, j).value else "APA"
  }

  // --------------------------------------------------------------- process

  /** `summary.split(' ').length` */
  function WordCount(summary: string): (n: nat)
    ensures n == Count(summary, ' ') + 1
  {
    SplitLength(summary, ' ');
    |Split(summary, ' ')|
  }

  function Confidence(kind: AgentKind): real {
    if kind == Summary then 0.9 else 0.85
  }

  /** The `type` tag each agent puts in its metadata. */
  function KindTag(kind: AgentKind): string {
    match kind
    case Summary => "summary"
    case QA => "qa"
    case Citation => "citation"
    case Reference => "references"
  }

  /** The message of the backend error behind each agent's failure. */
  function BackendFailure(kind: AgentKind): string {
    match kind
    case Summary => SummaryFailed
    case QA => AnswerFailed
    case Citation => SummaryFailed
    case Reference => ReferencesFailed
  }

  /** `SummaryAgent.process(text)`: summarises its first argument. */
  function SummaryProcess(chat: Chat, text: string): (r: Result<AgentResponse, string>)
    ensures r.Err? <==> SummarizeText(chat, text).Err?
    ensures r.Err? ==> r.error == AgentFailure(Summary, SummaryFailed)
    ensures r.Ok? ==> && SummarizeText(chat, text).Ok?
                      && r.value.message == SummarizeText(chat, text).value
                      && r.value.confidence == 0.9
                      && r.value.metadata == SummaryMeta(WordCount(r.value.message))
  {
    var outcome := SummarizeText(chat, text);
    if outcome.Err? then Err(AgentFailure(Summary, outcome.error))
    else Ok(AgentResponse(outcome.value, 0.9, SummaryMeta(WordCount(outcome.value))))
  }

  /** `QAAgent.process(question, context)`: the backend is asked with the
      context first and the question second. */
  function QaProcess(chat: Chat, question: string, context: string): (r: Result<AgentResponse, string>)
    ensures r.Err? <==> AnswerQuestions(chat, context, question).Err?
    ensures r.Err? ==> r.error == AgentFailure(QA, AnswerFailed)
    ensures r.Ok? ==> && r.value.message == AnswerQuestions(chat, context, question).value
                      && r.value.confidence == 0.85
                      && r.value.metadata == QaMeta(DetermineQuestionType(question))
  {
    match AnswerQuestions(chat, context, question)
    case Err(e) => Err(AgentFailure(QA, e))
    case Ok(answer) => Ok(AgentResponse(answer, 0.85, QaMeta(DetermineQuestionType(question))))
  }

  /** `CitationAgent.process(text, context)`: the citation is generated from
      the context when it is non-empty (`context || text`), otherwise from the
      task text; the style always comes from the task text. */
  function CitationProcess(chat: Chat, text: string, context: string): (r: Result<AgentResponse, string>)
    ensures var source := if context != "" then context else text;
      && (r.Err? <==> GenerateCitation(chat, source).Err?)
      && (r.Err? ==> r.error == AgentFailure(Citation, SummaryFailed))
      && (r.Ok? ==> && r.value.message == GenerateCitation(chat, source).value
                    && r.value.confidence == 0.85
                    && r.value.metadata == CitationMeta(ExtractCitationStyle(text)))
  {
    var style := ExtractCitationStyle(text);
    match GenerateCitation(chat, if context != "" then context else text)
    case Err(e) => Err(AgentFailure(Citation, e))
    case Ok(citation) => Ok(AgentResponse(citation, 0.85, CitationMeta(style)))
  }

  /** `ReferenceAgent.process(text)`: extracts references from its first argument. */
  function ReferenceProcess(chat: Chat, text: string): (r: Result<AgentResponse, string>)
    ensures r.Err? <==> ExtractReferences(chat, text).Err?
    ensures r.Err? ==> r.error == AgentFailure(Reference, ReferencesFailed)
    ensures r.Ok? ==> var refs := ExtractReferences(chat, text).value;
      && r.value.message == Join(refs, "\n")
      && r.value.confidence == 0.85
      && r.value.metadata == ReferenceMeta(refs, |refs|)
  {
    match ExtractReferences(chat, text)
    case Err(e) => Err(AgentFailure(Reference, e))
    case Ok(refs) => Ok(AgentResponse(Join(refs, "\n"), 0.85, ReferenceMeta(refs, |refs|)))
  }

  /** `agent.process(task, context)` as the orchestrator calls it. */
  function Process(chat: Chat, kind: AgentKind, task: string, context: string): (r: Result<AgentResponse, string>)
    ensures r.Ok? ==> r.value.confidence == Confidence(kind) && 0.0 <= r.value.confidence <= 1.0
    ensures r.Ok? ==> TypeTag(r.value.metadata) == KindTag(kind)
    ensures r.Err? ==> r.error == AgentFailure(kind, BackendFailure(kind))
  {
    match kind
    case Summary => SummaryProcess(chat, task)
    case QA => QaProcess(chat, task, context)
    case Citation => CitationProcess(chat, task, context)
    case Reference => ReferenceProcess(chat, task)
  }

  /** The Summary and Reference agents ignore the context they are handed. */
  lemma ContextIgnored(chat: Chat, kind: AgentKind, task: string, c1: string, c2: string)
    requires kind == Summary || kind == Reference
    ensures Process(chat, kind, task, c1) == Process(chat, kind, task, c2)
  {
  }
}
