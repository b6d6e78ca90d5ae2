/** The reply post-processing of the OpenAI client wrapper. The chat-completion
    call itself is a parameter `chat`: it receives a `Prompt` (which request is
    being made and the text placed in it) and answers with the first choice's
    content, a missing content, or a thrown error. */
module OpenAiService {
  import opened Wrappers
  import opened Text

  /** What each request puts into the user message. Only the variable parts
      are kept; the fixed instructions around them are not modelled. */
  datatype Prompt =
    | AnswerPrompt(excerpt: string, question: string)
    | SummaryPrompt(text: string)
    | CitationPrompt(text: string)
    | ReferencePrompt(text: string)

  /** `response.choices[0].message.content`: a string, `null`, or a rejection. */
  datatype ChatReply = Content(text: string) | NoContent | ChatError

  type Chat = Prompt -> ChatReply

  /** Number of context characters quoted into a question prompt. */
  const ContextLimit: nat := 2000

  const NoAnswer := "I couldn't find a relevant answer in the paper."
  const NoSummary := "Failed to generate summary"
  const NoCitation := "Failed to generate citations"

  const AnswerFailed := "Failed to get answer from OpenAI"
  const SummaryFailed := "Failed to generate summary"
  const ReferencesFailed := "Failed to extract references"

  /** `content || fallback`: a missing or empty reply falls back. */
  function ContentOr(reply: ChatReply, fallback: string, failure: string): (r: Result<string, string>)
    ensures reply.ChatError? <==> r == Err(failure)
    ensures reply.Content? && reply.text != "" ==> r == Ok(reply.text)
    ensures reply.NoContent? || reply == Content("") ==> r == Ok(fallback)
  {
    match reply
    case ChatError => Err(failure)
    case NoContent => Ok(fallback)
    case Content(t) => if t == "" then Ok(fallback) else Ok(t)
  }

  /** The reply is recovered from every successful request outcome except
      the fallback text itself, and two services whose chats agree on a
      prompt give the same outcome for it: nothing but the reply to the
      request's own prompt decides the result. */
  lemma ReplyDecidesOutcome(chat1: Chat, chat2: Chat, p: Prompt, fallback: string, failure: string)
    requires chat1(p) == chat2(p)
    ensures ContentOr(chat1(p), fallback, failure) == ContentOr(chat2(p), fallback, failure)
    ensures var r := ContentOr(chat1(p), fallback, failure);
      r.Ok? && r.value != fallback ==> chat1(p) == Content(r.value)
  {
  }

  /** `context.slice(0, 2000)` */
  function Excerpt(context: string): (r: string)
    ensures |r| <= ContextLimit
    ensures StartsWith(context, r)
    ensures |context| <= ContextLimit ==> r == context
    ensures |context| > ContextLimit ==> r == context[..ContextLimit]
    ensures |r| == if |context| <= ContextLimit then |context| else ContextLimit
  {
    if |context| <= ContextLimit then context else context[..ContextLimit]
  }

  function AnswerQuestions(chat: Chat, context: string, question: string): (r: Result<string, string>)
    ensures chat(AnswerPrompt(Excerpt(context), question)).ChatError? <==> r == Err(AnswerFailed)
    ensures chat(AnswerPrompt(Excerpt(context), question)) in {NoContent, Content("")} ==> r == Ok(NoAnswer)
    ensures chat(AnswerPrompt(Excerpt(context), question)).Content? && chat(AnswerPrompt(Excerpt(context), question)).text != "" ==> r == Ok(chat(AnswerPrompt(Excerpt(context), question)).text)
    ensures r.Ok? ==> r.value != ""
    ensures r.Ok? && r.value != NoAnswer ==> chat(AnswerPrompt(Excerpt(context), question)) == Content(r.value)
  {
    ContentOr(chat(AnswerPrompt(Excerpt(context), question)), NoAnswer, AnswerFailed)
  }

  /** Only the first 2000 characters of the context can influence an answer. */
  lemma AnswerSeesOnlyExcerpt(chat: Chat, c1: string, c2: string, question: string)
    requires |c1| >= ContextLimit && |c2| >= ContextLimit
    requires c1[..ContextLimit] == c2[..ContextLimit]
    ensures AnswerQuestions(chat, c1, question) == AnswerQuestions(chat, c2, question)
  {
  }

  function SummarizeText(chat: Chat, text: string): (r: Result<string, string>)
    ensures chat(SummaryPrompt(text)).ChatError? <==> r == Err(SummaryFailed)
    ensures chat(SummaryPrompt(text)) in {NoContent, Content("")} ==> r == Ok(NoSummary)
    ensures chat(SummaryPrompt(text)).Content? && chat(SummaryPrompt(text)).text != "" ==> r.Ok? && r.value == chat(SummaryPrompt(text)).text
    ensures r.Ok? ==> r.value != ""
    ensures r.Ok? && r.value != NoSummary ==> chat(SummaryPrompt(text)) == Content(r.value)
  {
    ContentOr(chat(SummaryPrompt(text)), NoSummary, SummaryFailed)
  }

  /** The source reports a failed citation request with the summary message. */
  function GenerateCitation(chat: Chat, text: string): (r: Result<string, string>)
    ensures chat(CitationPrompt(text)).ChatError? <==> r == Err(SummaryFailed)
    ensures chat(CitationPrompt(text)) in {NoContent, Content("")} ==> r == Ok(NoCitation)
    ensures chat(CitationPrompt(text)).Content? && chat(CitationPrompt(text)).text != "" ==> r == Ok(chat(CitationPrompt(text)).text)
    ensures r.Ok? ==> r.value != ""
    ensures r.Ok? && r.value != NoCitation ==> chat(CitationPrompt(text)) == Content(r.value)
  {
    ContentOr(chat(CitationPrompt(text)), NoCitation, SummaryFailed)
  }

  /** The non-blank lines of a reply, trimmed, in order. */
  function ReferenceLines(content: string): (refs: seq<string>)
    ensures forall k :: 0 <= k < |refs| ==> refs[k] != "" && IsTrimmed(refs[k]) && '\n' !in refs[k]
    ensures |refs| <= Count(content, '\n') + 1
    ensures forall x :: x in refs <==>
              x != "" && exists k :: 0 <= k < |Split(content, '\n')| && Trim(Split(content, '\n')[k]) == x
  {
    SplitLength(content, '\n');
    NonBlankTrimmedLacks(Split(content, '\n'), '\n');
    NonBlankTrimmedMembers(Split(content, '\n'));
    NonBlankTrimmed(Split(content, '\n'))
  }

  /** Lines keep their order: the references of two replies joined by a
      newline are those of the first followed by those of the second. */
  lemma ReferenceLinesAppend(a: string, b: string)
    ensures ReferenceLines(a + "\n" + b) == ReferenceLines(a) + ReferenceLines(b)
  {
    SplitAppend(a, '\n', b);
    NonBlankTrimmedAppend(Split(a, '\n'), Split(b, '\n'));
  }

  /** A reply of one line gives that line trimmed, or nothing when it is blank. */
  lemma ReferenceLinesOneLine(content: string)
    requires '\n' !in content
    ensures ReferenceLines(content) == if Trim(content) == "" then [] else [Trim(content)]
  {
    SplitWithout(content, '\n');
  }

  function ExtractReferences(chat: Chat, text: string): (r: Result<seq<string>, string>)
    ensures chat(ReferencePrompt(text)).ChatError? <==> r == Err(ReferencesFailed)
    ensures chat(ReferencePrompt(text)) in {NoContent, Content("")} ==> r == Ok([])
    ensures chat(ReferencePrompt(text)).Content? ==> r == Ok(ReferenceLines(chat(ReferencePrompt(text)).text))
  {
    match chat(ReferencePrompt(text))
    case ChatError => Err(ReferencesFailed)
    case NoContent => Ok([])
    case Content(t) => if t == "" then Ok([]) else Ok(ReferenceLines(t))
  }

  /** Round trip: a reply whose lines are already non-blank and trimmed is
      recovered exactly by joining the extracted references with newlines. */
  lemma ReferenceLinesRoundTrip(content: string)
    requires forall k :: 0 <= k < |Split(content, '\n')| ==>
               Split(content, '\n')[k] != "" && IsTrimmed(Split(content, '\n')[k])
    ensures Join(ReferenceLines(content), "\n") == content
  {
    SplitJoin(content, '\n');
    NonBlankTrimmedIdentity(Split(content, '\n'));
  }
}
