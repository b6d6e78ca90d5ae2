# Research assistant server core, modelled in Dafny

The server of the research assistant takes an uploaded PDF, extracts and
cleans its text, and answers tasks about it through four agents (summary,
question answering, citation, references) chosen by keyword by an
orchestrator. Around that core sit text helpers for a HuggingFace backend
(paragraph chunking, bounded retry, summary post-processing, named-entity
reference extraction), a citation formatter, the post-processing of OpenAI
replies, a websocket registry that maps session ids to sockets, and an
Express middleware that resolves the session of each request.

This project models that core as pure Dafny functions over immutable data and
proves what the code promises about it. The backends are parameters:

- the OpenAI chat call is a function `Chat` from a prompt to a reply (text,
  no content, or an error);
- the HuggingFace summariser is a function of the chunk and the attempt number;
- the token classifier is a function of the model and the chunk;
- whether a socket is open is a predicate on socket numbers;
- the session store is a map from id to expiry time, with the clock, the
  generated uuid and the failing database call as inputs.

Modules, one per source file or component:

| module | file | models |
|---|---|---|
| `Wrappers` | wrappers.dfy | `Option` and `Result` |
| `Text` | text.dfy | JavaScript string operations: `toLowerCase` on ASCII, `trim` with the JavaScript white-space set, `includes`, `startsWith`, `split`, `join` |
| `TextCleaning` | text_cleaning.dfy | `cleanExtractedText`, `postProcessSummary`, `cleanReference` |
| `Chunking` | chunking.dfy | `splitTextIntoChunks` and the paragraph split `/\n\s*\n/` |
| `HuggingFaceService` | huggingface_service.dfy | `retry`, `summarizeText`, `extractReferences` |
| `PageRender` | page_render.dfy | `renderPage` / `render_page` |
| `CitationService` | citation_service.dfy | the three layouts, author lists, year extraction, author splitting |
| `OpenAiService` | openai_service.dfy | reply fallbacks, context excerpt, reference-line splitting |
| `Agents` | agents.dfy | the four agents' `canHandle` and `process` |
| `Orchestrator` | orchestrator.dfy | `AgentOrchestrator.processRequest` |
| `PdfService` | pdf_service.dfy | `processPdfContent` |
| `Websocket` | websocket.dfy | cookie parsing, the `clients` map, `notifyClient` |
| `Session` | session.dfy | `sessionMiddleware` |

Thrown errors become `Err` values carrying the error message. An error
re-thrown inside a template string (`${error}`) becomes `"Error: " +
message`, as JavaScript renders an `Error`.

Behaviour worth knowing, each stated by a lemma:

- when every chunk fails to summarise, the HuggingFace `summarizeText`
  returns "" instead of failing (`HuggingFaceService.AllChunksFailGivesEmpty`);
- a merged chunk can exceed the 1024-character limit by two, because the
  length test leaves out the blank-line separator (`Chunking.MergeOverrun`);
- the Reference agent needs the plural "references"
  (`Agents.SingularReferenceRejected`);
- the question type is a prefix test, not a first-word test, so "However"
  is a "how" question (`Agents.HoweverIsHow`);
- the spelling the Citation agent reports, "CHICAGO", would fall through to
  APA if it were passed to the citation formatter; the agent never passes it,
  since it asks the OpenAI backend for the citation instead
  (`CitationService.UpperCaseChicagoIsApa`).

## Model

| member | source | states |
|---|---|---|
| Agents.SummaryCanHandleIff | app/server/src/services/Agents/SummaryAgent.ts:11-22 | the Summary agent accepts a task exactly when its lower-case form contains "summarize", "summary", "brief" or "overview"; the fifth keyword "generate summary" adds nothing |
| Agents.CitationCanHandleIff | app/server/src/services/Agents/CitationAgent.ts:11-16 | the Citation agent accepts a task exactly when its lower-case form contains "citation" or "cite" |
| Agents.ReferenceCanHandleIff | app/server/src/services/Agents/ReferenceAgent.ts:11-14 | the Reference agent accepts a task exactly when its lower-case form contains "references" |
| Agents.SingularReferenceRejected | app/server/src/services/Agents/ReferenceAgent.ts:11-14 | the singular "reference" is not accepted |
| Agents.LeadingSpaceDefeatsPrefix | app/server/src/services/Agents/QAAgent.ts:11-18 | only the `?` test trims: a task that starts with white space is a question only if its trimmed form ends with `?` |
| Agents.DetermineQuestionType | app/server/src/services/Agents/QAAgent.ts:36-41 | the type is "what", "how", "why" or "other"; a named type is a lower-case prefix of the question, and "other" is returned exactly when none of the three is |
| Agents.QuestionTypeImpliesQa | app/server/src/services/Agents/QAAgent.ts:11-18 | a question with a named type is accepted by the QA agent |
| Agents.HoweverIsHow | app/server/src/services/Agents/QAAgent.ts:36-41 | "However, is it" is classified as "how" |
| Agents.ExtractCitationStyle | app/server/src/services/Agents/CitationAgent.ts:36-42 | the style is always "APA", "MLA" or "CHICAGO"; it is the upper-cased style named by the leftmost case-insensitive match of `in`, white space, APA, MLA or Chicago, white space, `style`; "APA" when nothing matches |
| Agents.CitationTaskAccepted | app/server/src/controllers/FileControllers.ts:195-198 | the task `generate citation in ${style} style` that the upload controller builds is accepted by the Citation agent for every style |
| Agents.WordCount | app/server/src/services/Agents/SummaryAgent.ts:32 | the word count is the number of spaces plus one, so "" counts 1 |
| Agents.SummaryProcess | app/server/src/services/Agents/SummaryAgent.ts:24-37 | fails exactly when the backend summary fails, with "Summary Agent failed: Error: Failed to generate summary"; otherwise the message is the summary, confidence 0.9, and the word count matches the message |
| Agents.QaProcess | app/server/src/services/Agents/QAAgent.ts:20-34 | the backend is asked with the context first; fails exactly when it fails, with the QA prefix; otherwise the answer, confidence 0.85, and the question type |
| Agents.CitationProcess | app/server/src/services/Agents/CitationAgent.ts:18-34 | the backend receives the context when it is non-empty and the task otherwise; the style comes from the task; confidence 0.85; the Citation prefix on failure |
| Agents.ReferenceProcess | app/server/src/services/Agents/ReferenceAgent.ts:16-31 | the message is the reference list joined by newlines, the metadata holds the list and its length, confidence 0.85; the Reference prefix on failure |
| Agents.Process | app/server/src/types/types.ts:7-16 | every agent answers with its fixed confidence, within 0 to 1, and its own metadata tag, or fails with its own prefix |
| Agents.ContextIgnored | app/server/src/services/Agents/SummaryAgent.ts:24-26 | the Summary and Reference agents give the same result whatever the context |
| Orchestrator.Eligible | app/server/src/services/Agents/AgentOrchestrator.ts:11-20 | an agent is eligible exactly when its `canHandle` accepts the task, and the eligible agents keep the constructor's order |
| Orchestrator.FilterKeepsOrder | app/server/src/services/Agents/AgentOrchestrator.ts:20 | filtering a list sorted by constructor order keeps it sorted |
| Orchestrator.EveryAgentListed | app/server/src/services/Agents/AgentOrchestrator.ts:11-16 | every agent kind is in the list, once, in order |
| Orchestrator.RunAll | app/server/src/services/Agents/AgentOrchestrator.ts:27-29 | all eligible agents run with `(task, context)` and their results keep list order; the fan-out fails exactly when some agent fails, with that agent's error |
| Orchestrator.Best | app/server/src/services/Agents/AgentOrchestrator.ts:32-34 | the reduce returns one of the results, with a confidence at least every other one's, and every earlier result has a strictly lower confidence |
| Orchestrator.ProcessRequest | app/server/src/services/Agents/AgentOrchestrator.ts:19-38 | no eligible agent gives "No agent available to handle this task"; any failing agent fails the request with "Agent processing failed: "; otherwise the result is an eligible agent's, of maximal confidence, the first such one |
| Orchestrator.SingleEligible | app/server/src/services/Agents/AgentOrchestrator.ts:20 | a task that exactly one agent accepts has exactly that agent eligible |
| Orchestrator.OnlyEligibleAgent | app/server/src/services/Agents/AgentOrchestrator.ts:26-37 | with one eligible agent its response comes back unchanged, or its error wrapped once |
| Orchestrator.TieGoesToEarlierAgent | app/server/src/services/Agents/AgentOrchestrator.ts:32-33 | when the Citation and Reference agents are both eligible and both answer, the Citation agent's answer wins the tie |
| Orchestrator.EmptyTaskUnhandled | app/server/src/services/Agents/AgentOrchestrator.ts:20-24 | the empty task finds no agent |
| Orchestrator.CiteTaskAccepted | app/server/src/services/Agents/CitationAgent.ts:11-14 | the task "cite the references" is accepted by the Citation and Reference agents and by neither the Summary nor the QA agent |
| Orchestrator.CiteTaskEligible | app/server/src/services/Agents/AgentOrchestrator.ts:20 | the eligible agents for "cite the references" are the Citation agent then the Reference agent, in list order |
| Orchestrator.CiteTheReferences | app/server/src/services/Agents/AgentOrchestrator.ts:20-33 | when both agents answer "cite the references", the request returns the Citation agent's answer |
| CitationService.FormatApaAuthors | app/server/src/services/CitationService.ts:116-121 | no author gives ""; otherwise the list starts with the first author; one author is the list itself; two authors put " & " right after the first and end with the second; three or more are the first author followed by " et al." and show no other name |
| CitationService.FormatMlaAuthors | app/server/src/services/CitationService.ts:123-128 | starts with the first author; two authors put " and " right after the first and end with the second; three or more are the first author followed by ", et al", with no closing period |
| CitationService.FormatChicagoAuthors | app/server/src/services/CitationService.ts:130-137 | starts with the first author and shows every author of a list of up to three; three authors put ", " after the first, the second next, ", and " after it and end with the third; four or more are the first author followed by " et al." |
| CitationService.LongListsShowOnlyFirstAuthor | app/server/src/services/CitationService.ts:116-137 | long author lists that share a first author format the same |
| CitationService.FormatApa | app/server/src/services/CitationService.ts:74-86 | the citation starts with the author part, " (year)." or " (n.d.).", and the title or "Untitled"; the journal, when present, follows the head at once as ". journal"; the DOI link follows that and ends the citation; without a DOI it ends with the journal, and with neither it is the head alone |
| CitationService.FormatMla | app/server/src/services/CitationService.ts:88-100 | starts with the author part and the quoted title; then, each right after the previous present part, " journal", ", year" and ". DOI: doi"; the last present part ends the citation, and with none it is the head alone |
| CitationService.FormatChicago | app/server/src/services/CitationService.ts:102-114 | starts with the author part and the quoted title with no space between; then, each right after the previous present part, " journal", " (year)" and ". DOI: doi"; the last present part is followed only by the closing ".", and with none the citation is the head and "." |
| CitationService.EmptyMetadataDefaults | app/server/src/services/CitationService.ts:74-114 | with nothing extracted the three layouts print their defaults |
| CitationService.CitationShowsEveryField | app/server/src/services/CitationService.ts:74-155 | whatever the style, the citation shows the title (or "Untitled"), the first author, and the journal, year and DOI whenever each is present |
| CitationService.GenerateCitation | app/server/src/services/CitationService.ts:139-155 | "MLA" and "Chicago" pick their layouts; every other style, "APA" included, picks APA |
| CitationService.GenerateCitationDefault | app/server/src/services/CitationService.ts:139-142 | the default style is APA |
| CitationService.UpperCaseChicagoIsApa | app/server/src/services/CitationService.ts:145-154 | the formatter's style switch is case-sensitive: "CHICAGO", the spelling the Citation agent reports, would fall through to APA if it were passed to the formatter |
| CitationService.ExtractYear | app/server/src/services/CitationService.ts:52-57 | a year found lies in 1900..2099 and comes from the leftmost word-bounded 19xx/20xx token; none is found exactly when there is no such token |
| CitationService.YearRoundTrip | app/server/src/services/CitationService.ts:52-57 | a year in range written out alone is extracted back |
| CitationService.SplitAuthors | app/server/src/services/CitationService.ts:39-42 | every author is non-empty, trimmed, free of commas, and occurs in the matched block; a string is an author exactly when it is non-empty and the trim of some piece of the split |
| CitationService.AuthorSeparators | app/server/src/services/CitationService.ts:40 | the separators the split removes, one fewer than the pieces, each a whole comma, " and ", " & " or " et al." match |
| CitationService.AuthorPiecesRebuild | app/server/src/services/CitationService.ts:40 | the pieces with their separators put back between them give the author block back |
| CitationService.OneAuthorBlock | app/server/src/services/CitationService.ts:39-42 | a block with no separator gives its trim as the only author, or no author when it is blank |
| CitationService.ExtractMetadata | app/server/src/services/CitationService.ts:15-30 | without an author match there are no authors; otherwise every author is non-empty, trimmed, comma-free and occurs in the matched block, and a string is an author exactly when it is non-empty and the trim of some piece of the block's split; a year lies in 1900..2099 and is the leftmost word-bounded 19xx/20xx token of the text, and there is none exactly when the text has no such token; the matched title, journal and DOI are kept as they are |
| OpenAiService.ContentOr | app/server/src/services/OpenAiService.ts:41-48 | an error reply gives the fixed failure; an empty or missing reply gives the fallback; otherwise the reply itself |
| OpenAiService.Excerpt | app/server/src/services/OpenAiService.ts:30 | the excerpt is the whole context when it has at most 2000 characters, and exactly its first 2000 characters otherwise |
| OpenAiService.AnswerSeesOnlyExcerpt | app/server/src/services/OpenAiService.ts:30 | contexts that agree on their first 2000 characters get the same answer |
| OpenAiService.AnswerQuestions | app/server/src/services/OpenAiService.ts:18-49 | fails exactly when the backend fails, with "Failed to get answer from OpenAI"; an empty or missing reply gives the "couldn't find" answer; a non-empty reply is the answer; any other answer is the reply the backend gave |
| OpenAiService.SummarizeText | app/server/src/services/OpenAiService.ts:51-77 | fails exactly when the backend fails; an empty or missing reply gives "Failed to generate summary"; a non-empty reply is the summary; any other summary is the reply the backend gave |
| OpenAiService.GenerateCitation | app/server/src/services/OpenAiService.ts:79-104 | fails exactly when the backend fails, reporting "Failed to generate summary"; an empty or missing reply gives "Failed to generate citations"; a non-empty reply is the citation; any other citation is the reply the backend gave |
| OpenAiService.ReplyDecidesOutcome | app/server/src/services/OpenAiService.ts:41-48 | only the reply to the request's own prompt decides the outcome, and a successful outcome other than the fallback is that reply |
| OpenAiService.ReferenceLines | app/server/src/services/OpenAiService.ts:129-132 | every reference is a non-empty trimmed line, there are no more references than lines, and a string is a reference exactly when it is non-empty and the trim of some line |
| OpenAiService.ReferenceLinesAppend | app/server/src/services/OpenAiService.ts:129-132 | references keep line order: two replies joined by a newline give the first reply's references followed by the second's |
| OpenAiService.ReferenceLinesOneLine | app/server/src/services/OpenAiService.ts:129-132 | a one-line reply gives that line trimmed, or nothing when it is blank |
| OpenAiService.ReferenceLinesRoundTrip | app/server/src/services/OpenAiService.ts:129-132 | a reply whose lines are already trimmed and non-blank is split into exactly those lines |
| OpenAiService.ExtractReferences | app/server/src/services/OpenAiService.ts:106-137 | an empty or missing reply gives no references, a text reply its lines, a failure "Failed to extract references" |
| TextCleaning.CleanExtractedText | app/server/src/services/PdfService.ts:111-117 | the cleaned text holds only printable ASCII, no newline, and no white space at either end |
| TextCleaning.CleanExtractedTextFixpoint | app/server/src/services/HuggingFaceService.ts:68-74 | printable, single-spaced, trimmed text is left unchanged |
| TextCleaning.CleanExtractedTextTwice | app/server/src/services/HuggingFaceService.ts:68-74 | cleaning is not idempotent: "a é b" cleans to "a  b", which cleans again to "a b" |
| TextCleaning.PostProcessSummary | app/server/src/services/HuggingFaceService.ts:114-120 | the summary is trimmed and single-spaced, with no white space before '.' or ',' |
| TextCleaning.PostProcessSummaryIdempotent | app/server/src/services/HuggingFaceService.ts:114-120 | post-processing twice is post-processing once |
| TextCleaning.PostProcessSummaryFixpoint | app/server/src/services/HuggingFaceService.ts:114-120 | post-processing leaves a summary unchanged exactly when it is trimmed, single-spaced and has no white space before '.' or ',' |
| TextCleaning.DropSpaceBeforeIdentity | app/server/src/services/HuggingFaceService.ts:117-118 | the replacement changes nothing when no white space precedes the character |
| TextCleaning.CleanReference | app/server/src/services/HuggingFaceService.ts:164-169 | a cleaned reference has no brackets or parentheses and is trimmed |
| TextCleaning.DropBracketsAppend | app/server/src/services/HuggingFaceService.ts:166 | bracket removal works character by character: on a concatenation it is the removal on each part, concatenated |
| TextCleaning.DropBracketsChar | app/server/src/services/HuggingFaceService.ts:166 | a single character is removed exactly when it is one of `[`, `]`, `(`, `)` |
| TextCleaning.CleanReferenceSample | app/server/src/services/HuggingFaceService.ts:164-169 | "(Smith)" cleans to "Smith" |
| TextCleaning.CleanReferenceFixpoint | app/server/src/services/HuggingFaceService.ts:164-169 | a trimmed reference without brackets or numbering prefix is already clean |
| TextCleaning.CleanReferenceOnePrefix | app/server/src/services/HuggingFaceService.ts:167 | only one numbering prefix is removed, so "1. 2. x" needs two passes |
| TextCleaning.CleanSingleDigitItem | app/server/src/services/HuggingFaceService.ts:164-169 | "N. text" loses exactly its "N. " prefix |
| Chunking.Paragraphs | app/server/src/services/HuggingFaceService.ts:37 | the split gives at least one piece and no piece contains a blank line |
| Chunking.ParagraphBreaks | app/server/src/services/HuggingFaceService.ts:37 | the separators the split removes, one fewer than the paragraphs, each a whole match of a newline, whitespace, and a newline |
| Chunking.ParagraphsRebuild | app/server/src/services/HuggingFaceService.ts:37 | the paragraphs with their separators put back between them give the text back |
| Chunking.OneParagraphIff | app/server/src/services/HuggingFaceService.ts:37 | a text is split into itself alone exactly when it holds no blank line |
| Chunking.SplitTextIntoChunks | app/server/src/services/HuggingFaceService.ts:34-53 | no chunk is empty; the chunks joined by a blank line are the trimmed non-blank paragraphs joined by a blank line; every chunk is one of those paragraphs or at most 1026 characters long |
| Chunking.FoldJoin | app/server/src/services/HuggingFaceService.ts:39-51 | the loop adds every kept paragraph, in order, to the joined chunks |
| Chunking.FoldKeepsWellFormed | app/server/src/services/HuggingFaceService.ts:39-51 | the loop keeps every chunk non-empty and a paragraph or within the length bound |
| Chunking.MergeOverrun | app/server/src/services/HuggingFaceService.ts:43-47 | the length test leaves out the separator, so a merged chunk can reach 1026 characters |
| HuggingFaceService.Retry | app/server/src/services/HuggingFaceService.ts:22-32 | a success is the first successful attempt, every earlier one failed; a failure is the last attempt's error after all attempts failed; zero retries give "Max retries reached" |
| HuggingFaceService.AttemptsMade | app/server/src/services/HuggingFaceService.ts:23-29 | the loop calls the function at most `maxRetries` times, and at least once |
| HuggingFaceService.AttemptsEndAtFirstSuccess | app/server/src/services/HuggingFaceService.ts:23-29 | a first success at attempt k ends the loop after k + 1 calls with that result |
| HuggingFaceService.RetrySeesOnlyItsAttempts | app/server/src/services/HuggingFaceService.ts:22-32 | attempts beyond the limit cannot change the result |
| HuggingFaceService.Summaries | app/server/src/services/HuggingFaceService.ts:81-105 | the kept summaries are non-empty, no more than the chunks, each the retried summary of some chunk |
| HuggingFaceService.SummariesAppend | app/server/src/services/HuggingFaceService.ts:81-105 | summaries keep chunk order |
| HuggingFaceService.NoSummariesIff | app/server/src/services/HuggingFaceService.ts:99 | no summary is kept exactly when no chunk yields a non-empty summary |
| HuggingFaceService.SummarizeText | app/server/src/services/HuggingFaceService.ts:76-112 | the result is a post-processed summary: trimmed, single-spaced, no white space before '.' or ',' |
| HuggingFaceService.AllChunksFailGivesEmpty | app/server/src/services/HuggingFaceService.ts:101-107 | when every chunk fails the result is "" and not an error |
| HuggingFaceService.OnlyContributorSummary | app/server/src/services/HuggingFaceService.ts:81-107 | when exactly one chunk yields a summary, the result is that summary post-processed, and the summary itself when it is already in post-processed form |
| HuggingFaceService.OnlyContributorSummaries | app/server/src/services/HuggingFaceService.ts:81-105 | when exactly one chunk yields a summary, the kept summaries are that one summary |
| HuggingFaceService.SummarizeSeesOnlyChunks | app/server/src/services/HuggingFaceService.ts:78-107 | texts with the same chunks summarise the same |
| HuggingFaceService.CleanedWordsIff | app/server/src/services/HuggingFaceService.ts:140-152 | a word is kept exactly when an entity of an accepted group cleans to it |
| HuggingFaceService.ChunkReferencesIff | app/server/src/services/HuggingFaceService.ts:128-152 | a chunk yields references exactly when both classifiers answer, and then a word is among them exactly when an accepted entity of either classifier cleans to it |
| HuggingFaceService.CleanedWordsAppend | app/server/src/services/HuggingFaceService.ts:140-152 | filtering and cleaning a concatenation of entity lists is the concatenation of the cleaned lists |
| HuggingFaceService.ChunkReferencesOrder | app/server/src/services/HuggingFaceService.ts:128-152 | a chunk's references are the CamemBERT words followed by the BERT-CoNLL words, each in the order its model reported them |
| HuggingFaceService.CollectIff | app/server/src/services/HuggingFaceService.ts:127-155 | a word is collected exactly when some chunk yields it |
| HuggingFaceService.Dedup | app/server/src/services/HuggingFaceService.ts:154-157 | the set has no duplicates and holds exactly the collected words |
| HuggingFaceService.DedupFirstOccurrenceOrder | app/server/src/services/HuggingFaceService.ts:157 | the set lists words in the order of their first insertion |
| HuggingFaceService.DedupOfDistinct | app/server/src/services/HuggingFaceService.ts:157 | a list without duplicates goes through the set unchanged |
| HuggingFaceService.ExtractReferences | app/server/src/services/HuggingFaceService.ts:122-162 | fails with "Failed to extract references" exactly when some chunk's classification fails; otherwise the references are distinct, trimmed and bracket-free |
| HuggingFaceService.ExtractReferencesIff | app/server/src/services/HuggingFaceService.ts:122-162 | on success a word is a reference exactly when some accepted entity of some chunk cleans to it |
| HuggingFaceService.ExtractReferencesOrder | app/server/src/services/HuggingFaceService.ts:154-157 | references come in the order of their first occurrence |
| PageRender.Piece | app/server/src/services/PdfService.ts:129-133 | an item after a non-zero height different from its own gets a newline before its string; any other item is appended as it is |
| PageRender.RenderWithoutBreaks | app/server/src/services/PdfService.ts:128-135 | with no break the page is the item strings concatenated in order |
| PageRender.RenderAppend | app/server/src/services/PdfService.ts:128-135 | rendering two runs of items is rendering the first, then the second from the first's last height |
| PageRender.RenderPageAt | app/server/src/services/HuggingFaceService.ts:185-192 | item k's string occurs right after the rendering of the earlier items, preceded by a newline exactly when the loop breaks there |
| PageRender.ZeroHeightJoins | app/server/src/services/PdfService.ts:129 | a previous height of 0 never breaks the line |
| PdfService.MetadataReferences | app/server/src/services/PdfService.ts:56 | the references metadata when present, else [] |
| PdfService.SummaryTaskRouting | app/server/src/services/PdfService.ts:40-43 | "generate summary of this text" is taken by the Summary agent alone |
| PdfService.ReferencesTaskRouting | app/server/src/services/PdfService.ts:44-47 | "find references in this document" is taken by the Reference agent alone |
| PdfService.SummaryRequestRouted | app/server/src/services/PdfService.ts:40-43 | the summary request succeeds exactly when the backend summary of the task string does, and returns it |
| PdfService.ReferencesRequestRouted | app/server/src/services/PdfService.ts:44-47 | the references request succeeds exactly when the backend reference extraction of the task string does, and returns that list |
| PdfService.ProcessPdfContent | app/server/src/services/PdfService.ts:33-62 | no parsed text gives "Failed to extract text from PDF"; the text is the cleaned text; the summary and references are what the agents return; either request failing fails the whole call |
| PdfService.DocumentIgnored | app/server/src/services/PdfService.ts:40-47 | as written, two different documents get the same summary and references |
| PdfService.ProcessPdfContentOnText | app/server/src/services/PdfService.ts:33-62 | the corrected composition summarises and extracts references from the cleaned text itself |
| PdfService.SummaryFollowsDocument | app/server/src/services/PdfService.ts:40-43 | with the correction, documents the backend summarises differently get different summaries |
| Websocket.GetSessionIdFromCookie | app/server/src/config/websocket.ts:26-30 | no header or an empty one gives nothing; an id is non-empty and has no ';' and is the greedy capture of the leftmost `sessionId=` match; nothing is found exactly when no match exists |
| Websocket.CookieRoundTrip | app/server/src/config/websocket.ts:26-30 | a header starting `sessionId=<id>`, followed by nothing or by `;` and more cookies, gives back the id |
| Websocket.OnConnection | app/server/src/config/websocket.ts:14-18 | a socket with a session id replaces any earlier socket under that id and nothing else changes; a socket without one changes nothing |
| Websocket.OnClose | app/server/src/config/websocket.ts:19-21 | closing deletes the entry of the id the socket registered under, and nothing else |
| Websocket.NotifyClient | app/server/src/config/websocket.ts:32-36 | data is sent exactly when a socket is registered under the id and open, and then to that socket |
| Websocket.CloseRace | app/server/src/config/websocket.ts:14-21 | when a second socket joins a session and the first then closes, the session has no socket and notifications reach nobody |
| Websocket.LatestSocketNotified | app/server/src/config/websocket.ts:14-36 | the socket that connected last under an id is the one notified while open |
| Session.Resolve | app/server/src/middleware/session.ts:9-87 | `next(error)` happens exactly on a failing database call, with nothing else done; a set cookie carries the attached id and the 30-day max age; the store only gains the generated id and changes no other entry |
| Session.LiveSessionKept | app/server/src/middleware/session.ts:46-53 | a cookie naming a live session keeps it, leaves the store alone and sets no cookie |
| Session.DeadSessionReplaced | app/server/src/middleware/session.ts:53-75 | a cookie naming a missing or expired session gets a fresh session that expires in 30 days, and the cookie is reset |
| Session.NoCookieCreates | app/server/src/middleware/session.ts:19-45 | with no cookie a fresh id is stored with a 30-day expiry unless it already exists, and the cookie is set either way |
| Session.FollowUpKeepsSession | app/server/src/middleware/session.ts:19-86 | a follow-up request that sends back the attached id within 30 days keeps that session without touching the store |

## Left out

- Network calls, file reading and `pdf-parse`: the OpenAI chat, the HuggingFace summariser and classifiers, the parsed PDF text and the socket state are parameters. pdf-parse's joining of pages is not modelled: the page renderer is modelled per page.
- `setTimeout` delays in `retry` and `summarizeText`: timing only.
- `Promise.all` timing: the agents run in list order, and when several fail, the model reports the first in list order, while at run time the first to fail would win.
- Prompts, model names and generation parameters: they are recorded only as the variable part of each prompt.
- Constructors and environment keys (`OPENAI_API_KEY`, `HUGGING_FACE_API_KEY`): configuration only.
- The title, journal and DOI regular expressions and the author-block pattern of `extractMetadata`: their matches are inputs to `ExtractMetadata`. The author split and the year scan are modelled.
- Lengths and slices count characters here, while JavaScript `length` and `slice` count UTF-16 code units. The 1024 bound in `splitTextIntoChunks` (HuggingFaceService.ts:43-47) and `context.slice(0, 2000)` (OpenAiService.ts:30) therefore differ from the model for text outside the Basic Multilingual Plane, and the source's slice can cut a surrogate pair in two, which the model cannot express.
- `toLowerCase` is modelled for ASCII letters only. For the ASCII keywords the agents look for, the result is the same under full Unicode lower-casing.
- The outer `catch` of HuggingFace `summarizeText` cannot fire, because every chunk error is caught inside; the model has no error path there.
- `summary_text` being `undefined`: the summariser returns "" for an empty or missing summary, and both are skipped.
- `renderPage` heights are reals; `NaN` and the string/number coercion of `==` are not modelled.
- The database: the session store is a map from id to expiry in milliseconds. `NOW()` in SQL and the server clock are taken to be the same `now`. The behaviour of an `INSERT` of an id that already exists is not modelled: the generated id in the cookie path is inserted as if it were new.
- Message encoding and logging: `notifyClient` sends `JSON.stringify(data)` (websocket.ts:35), while `Websocket.NotifyClient` states only which socket receives `data`; the `console.log` and `console.error` calls of the session middleware (session.ts:17-84) have no effect on its result and are dropped.
- Session.FollowUpKeepsSession: assumes the generated id is non-empty and, on the no-cookie path, not already stored, since a reused stored row keeps its old expiry.
- `PdfService.saveToDatabase`, `handleFileUpload`, the controllers and routers: HTTP and database glue outside the core.
- The older copy app/src/services/HuggingFaceService.ts is not part of this model; the server copy is.
- The client application is not part of this model.

## Findings

| source | as written | input that shows it | evidently intended | confidence | as-written member | corrected member |
|---|---|---|---|---|---|---|
| app/server/src/services/PdfService.ts:40-47 | `processPdfContent` passes the document as the context, but the Summary and Reference agents (SummaryAgent.ts:24-26, ReferenceAgent.ts:16-18) ignore the context and process the task string itself, so the backend summarises "generate summary of this text" | any two PDFs with different text: their summaries and reference lists are the same | summarise and extract references from the document's text | high; not executed | PdfService.DocumentIgnored | PdfService.ProcessPdfContentOnText |
