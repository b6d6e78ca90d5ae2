/** The aggregation logic of `HuggingFaceService`: the bounded retry, the
    chunk-by-chunk summarisation and the chunk-by-chunk named-entity
    reference extraction. The HuggingFace inference calls are parameters: a
    summariser answers `(chunk, attempt)` and a token classifier answers
    `(model, chunk)`, each with a value or an error. */
module HuggingFaceService {
  import opened Wrappers
  import opened Text
  import opened TextCleaning
  import opened Chunking

  // ------------------------------------------------------------------- retry

  /** `maxRetries` of the service. */
  const MaxRetries: nat := 3

  const MaxRetriesReached := "Max retries reached"

  /** The retry loop from attempt `i` on: return the first success, rethrow
      the error of the last allowed attempt. */
  function RetryFrom<T>(attempt: nat -> Result<T, string>, maxRetries: nat, i: nat): (r: Result<T, string>)
    requires i < maxRetries
    ensures r.Ok? ==> exists k :: && i <= k < maxRetries && attempt(k) == Ok(r.value)
                                  && forall j :: i <= j < k ==> attempt(j).Err?
    ensures r.Err? ==> r == attempt(maxRetries - 1) && forall j :: i <= j < maxRetries ==> attempt(j).Err?
    decreases maxRetries - i
  {
    match attempt(i)
    case Ok(v) => Ok(v)
    case Err(e) => if i == maxRetries - 1 then Err(e) else RetryFrom(attempt, maxRetries, i + 1)
  }

  /** `retry(fn)`: attempt `i` is the `i`-th call of `fn`. The back-off delay
      between attempts is timing only. */
  function Retry<T>(attempt: nat -> Result<T, string>, maxRetries: nat): (r: Result<T, string>)
    ensures maxRetries == 0 ==> r == Err(MaxRetriesReached)
    ensures r.Ok? ==> exists k :: && 0 <= k < maxRetries && attempt(k) == Ok(r.value)
                                  && forall j :: 0 <= j < k ==> attempt(j).Err?
    ensures maxRetries > 0 && r.Err? ==> r == attempt(maxRetries - 1) && forall j :: 0 <= j < maxRetries ==> attempt(j).Err?
  {
    if maxRetries == 0 then Err(MaxRetriesReached) else RetryFrom(attempt, maxRetries, 0)
  }

  /** How many times the retry loop calls `fn`, starting from attempt `i`. */
  function AttemptsFrom<T>(attempt: nat -> Result<T, string>, maxRetries: nat, i: nat): (n: nat)
    requires i < maxRetries
    ensures i < n <= maxRetries
    ensures n < maxRetries ==> attempt(n - 1).Ok?
    ensures forall j :: i <= j < n - 1 ==> attempt(j).Err?
    decreases maxRetries - i
  {
    if attempt(i).Ok? || i == maxRetries - 1 then i + 1 else AttemptsFrom(attempt, maxRetries, i + 1)
  }

  /** The number of calls `retry` makes: never more than `maxRetries`. */
  function AttemptsMade<T>(attempt: nat -> Result<T, string>, maxRetries: nat): (n: nat)
    ensures n <= maxRetries
    ensures maxRetries > 0 ==> n > 0
  {
    if maxRetries == 0 then 0 else AttemptsFrom(attempt, maxRetries, 0)
  }

  /** The outcome of `retry` depends only on the attempts it makes: two
      backends that agree on those give the same outcome after the same
      number of calls. */
  lemma {:induction false} RetrySeesOnlyItsAttempts<T>(a: nat -> Result<T, string>, b: nat -> Result<T, string>, maxRetries: nat)
    requires forall j :: 0 <= j < AttemptsMade(a, maxRetries) ==> a(j) == b(j)
    ensures Retry(a, maxRetries) == Retry(b, maxRetries)
    ensures AttemptsMade(a, maxRetries) == AttemptsMade(b, maxRetries)
  {
    if maxRetries > 0 {
      RetryFromSeesOnlyItsAttempts(a, b, maxRetries, 0);
    }
  }

  lemma {:induction false} RetryFromSeesOnlyItsAttempts<T>(a: nat -> Result<T, string>, b: nat -> Result<T, string>, maxRetries: nat, i: nat)
    requires i < maxRetries
    requires forall j :: i <= j < AttemptsFrom(a, maxRetries, i) ==> a(j) == b(j)
    ensures RetryFrom(a, maxRetries, i) == RetryFrom(b, maxRetries, i)
    ensures AttemptsFrom(a, maxRetries, i) == AttemptsFrom(b, maxRetries, i)
    decreases maxRetries - i
  {
    assert a(i) == b(i);
    if a(i).Err? && i < maxRetries - 1 {
      RetryFromSeesOnlyItsAttempts(a, b, maxRetries, i + 1);
    }
  }

  /** A success on attempt `k` ends the loop after exactly `k + 1` calls. */
  lemma {:induction false} AttemptsEndAtFirstSuccess<T>(attempt: nat -> Result<T, string>, maxRetries: nat, k: nat)
    requires k < maxRetries && attempt(k).Ok?
    requires forall j :: 0 <= j < k ==> attempt(j).Err?
    ensures AttemptsMade(attempt, maxRetries) == k + 1
    ensures Retry(attempt, maxRetries) == attempt(k)
  {
    AttemptsFromFirstSuccess(attempt, maxRetries, 0, k);
  }

  lemma {:induction false} AttemptsFromFirstSuccess<T>(attempt: nat -> Result<T, string>, maxRetries: nat, i: nat, k: nat)
    requires i <= k < maxRetries && attempt(k).Ok?
    requires forall j :: i <= j < k ==> attempt(j).Err?
    ensures AttemptsFrom(attempt, maxRetries, i) == k + 1
    ensures RetryFrom(attempt, maxRetries, i) == attempt(k)
  {
    AttemptsFromCount(attempt, maxRetries, i, k);
    RetryFromResult(attempt, maxRetries, i, k);
  }

  lemma {:induction false} AttemptsFromCount<T>(attempt: nat -> Result<T, string>, maxRetries: nat, i: nat, k: nat)
    requires i <= k < maxRetries && attempt(k).Ok?
    requires forall j :: i <= j < k ==> attempt(j).Err?
    ensures AttemptsFrom(attempt, maxRetries, i) == k + 1
    decreases k - i
  {
    if i < k {
      assert attempt(i).Err?;
      AttemptsFromCount(attempt, maxRetries, i + 1, k);
    }
  }

  lemma {:induction false} RetryFromResult<T>(attempt: nat -> Result<T, string>, maxRetries: nat, i: nat, k: nat)
    requires i <= k < maxRetries && attempt(k).Ok?
    requires forall j :: i <= j < k ==> attempt(j).Err?
    ensures RetryFrom(attempt, maxRetries, i) == attempt(k)
    decreases k - i
  {
    if i < k {
      assert attempt(i).Err?;
      RetryFromResult(attempt, maxRetries, i + 1, k);
    }
  }

  // ----------------------------------------------------------- summarizeText

  /** The summarisation backend: the summary for a chunk on a given attempt,
      `""` standing for an empty or missing `summary_text`. */
  type Summarizer = (string, nat) -> Result<string, string>

  /** The retried summarisation of one chunk. */
  function ChunkSummary(summarize: Summarizer, chunk: string): Result<string, string> {
    Retry(i => summarize(chunk, i), MaxRetries)
  }

  /** The summaries the loop keeps, in chunk order: a chunk whose retries all
      fail, or whose summary is empty, is skipped. */
  function Summaries(summarize: Summarizer, chunks: seq<string>): (r: seq<string>)
    ensures |r| <= |chunks|
    ensures forall k :: 0 <= k < |r| ==> r[k] != ""
    ensures forall k :: 0 <= k < |r| ==>
              exists j :: 0 <= j < |chunks| && ChunkSummary(summarize, chunks[j]) == Ok(r[k])
  {
    if chunks == [] then []
    else
      var rest := Summaries(summarize, chunks[1..]);
      assert forall k :: 0 <= k < |rest| ==>
               exists j :: 0 <= j < |chunks| && ChunkSummary(summarize, chunks[j]) == Ok(rest[k]) by {
        forall k | 0 <= k < |rest|
          ensures exists j :: 0 <= j < |chunks| && ChunkSummary(summarize, chunks[j]) == Ok(rest[k])
        {
          var j :| 0 <= j < |chunks[1..]| && ChunkSummary(summarize, chunks[1..][j]) == Ok(rest[k]);
          assert chunks[j + 1] == chunks[1..][j];
        }
      }
      match ChunkSummary(summarize, chunks[0])
      case Ok(s) => if s != "" then [s] + rest else rest
      case Err(_) => rest
  }

  /** Whether a chunk contributes a summary. */
  predicate Contributes(summarize: Summarizer, chunk: string) {
    ChunkSummary(summarize, chunk).Ok? && ChunkSummary(summarize, chunk).value != ""
  }

  /** Summaries keep chunk order: the summaries of two runs of chunks are the
      summaries of the first run followed by those of the second. */
  lemma {:induction false} SummariesAppend(summarize: Summarizer, a: seq<string>, b: seq<string>)
    ensures Summaries(summarize, a + b) == Summaries(summarize, a) + Summaries(summarize, b)
  {
    if a != [] {
      assert (a + b)[1..] == a[1..] + b;
      SummariesAppend(summarize, a[1..], b);
      SummariesCons(summarize, a);
      SummariesCons(summarize, a + b);
    } else {
      assert a + b == b;
    }
  }

  /** One step of the loop: the first chunk's summary, if it contributes one,
      comes before the summaries of the rest. */
  lemma SummariesCons(summarize: Summarizer, chunks: seq<string>)
    requires chunks != []
    ensures Summaries(summarize, chunks)
            == (if Contributes(summarize, chunks[0]) then [ChunkSummary(summarize, chunks[0]).value] else [])
               + Summaries(summarize, chunks[1..])
  {
  }

  /** A single chunk contributes its summary exactly when it succeeds with a
      non-empty one. */
  lemma SummariesOfOne(summarize: Summarizer, chunk: string)
    ensures Contributes(summarize, chunk) ==> Summaries(summarize, [chunk]) == [ChunkSummary(summarize, chunk).value]
    ensures !Contributes(summarize, chunk) ==> Summaries(summarize, [chunk]) == []
  {
    assert [chunk][1..] == [];
  }

  /** No summary is kept exactly when no chunk contributes. */
  lemma {:induction false} NoSummariesIff(summarize: Summarizer, chunks: seq<string>)
    ensures Summaries(summarize, chunks) == [] <==> forall j :: 0 <= j < |chunks| ==> !Contributes(summarize, chunks[j])
  {
    if chunks != [] {
      NoSummariesIff(summarize, chunks[1..]);
      if forall j :: 0 <= j < |chunks| ==> !Contributes(summarize, chunks[j]) {
        assert forall j :: 0 <= j < |chunks[1..]| ==> chunks[1..][j] == chunks[j + 1];
      }
      if Summaries(summarize, chunks) == [] {
        forall j | 0 <= j < |chunks|
          ensures !Contributes(summarize, chunks[j])
        {
          if j > 0 {
            assert chunks[j] == chunks[1..][j - 1];
          }
        }
      }
    }
  }

  /** `summarizeText`: chunk the text, summarise every chunk with retries,
      join the kept summaries with single spaces and post-process. The outer
      error path cannot be reached, since nothing outside the per-chunk
      handler can fail, so the result is always a string. */
  function SummarizeText(summarize: Summarizer, text: string): (r: string)
    ensures IsTrimmed(r) && SingleSpaced(r)
    ensures NoSpaceBefore(r, '.') && NoSpaceBefore(r, ',')
  {
    PostProcessSummary(Join(Summaries(summarize, SplitTextIntoChunks(text)), " "))
  }

  /** When no chunk yields a summary the result is the empty string, not an
      error. */
  lemma AllChunksFailGivesEmpty(summarize: Summarizer, text: string)
    requires forall j :: 0 <= j < |SplitTextIntoChunks(text)| ==> !Contributes(summarize, SplitTextIntoChunks(text)[j])
    ensures SummarizeText(summarize, text) == ""
  {
    NoSummariesIff(summarize, SplitTextIntoChunks(text));
    assert Join([], " ") == "";
    assert Collapse("") == "";
  }

  /** When exactly one chunk contributes, the result is that chunk's summary
      after post-processing, and the summary itself when it is already in
      post-processed form. */
  lemma OnlyContributorSummary(summarize: Summarizer, text: string, j: nat)
    requires j < |SplitTextIntoChunks(text)|
    requires Contributes(summarize, SplitTextIntoChunks(text)[j])
    requires forall i :: 0 <= i < |SplitTextIntoChunks(text)| && i != j ==> !Contributes(summarize, SplitTextIntoChunks(text)[i])
    ensures var v := ChunkSummary(summarize, SplitTextIntoChunks(text)[j]).value;
      && SummarizeText(summarize, text) == PostProcessSummary(v)
      && (IsTrimmed(v) && SingleSpaced(v) && NoSpaceBefore(v, '.') && NoSpaceBefore(v, ',') ==> SummarizeText(summarize, text) == v)
  {
    var chunks := SplitTextIntoChunks(text);
    var v := ChunkSummary(summarize, chunks[j]).value;
    OnlyContributorSummaries(summarize, chunks, j);
    assert Join([v], " ") == v;
    PostProcessSummaryFixpoint(v);
  }

  /** Only chunk `j` contributes, so only its summary is kept. */
  lemma {:induction false} OnlyContributorSummaries(summarize: Summarizer, chunks: seq<string>, j: nat)
    requires j < |chunks| && Contributes(summarize, chunks[j])
    requires forall i :: 0 <= i < |chunks| && i != j ==> !Contributes(summarize, chunks[i])
    ensures Summaries(summarize, chunks) == [ChunkSummary(summarize, chunks[j]).value]
    decreases j
  {
    var rest := chunks[1..];
    assert forall i :: 0 <= i < |rest| ==> rest[i] == chunks[i + 1];
    SummariesCons(summarize, chunks);
    if j == 0 {
      NoSummariesIff(summarize, rest);
    } else {
      OnlyContributorSummaries(summarize, rest, j - 1);
    }
  }

  /** The summariser is consulted only on the chunks of the text and only on
      the first `MaxRetries` attempts. */
  lemma SummarizeSeesOnlyChunks(s1: Summarizer, s2: Summarizer, text: string)
    requires forall j, i :: 0 <= j < |SplitTextIntoChunks(text)| && 0 <= i < MaxRetries ==>
               s1(SplitTextIntoChunks(text)[j], i) == s2(SplitTextIntoChunks(text)[j], i)
    ensures SummarizeText(s1, text) == SummarizeText(s2, text)
  {
    SummariesAgree(s1, s2, SplitTextIntoChunks(text));
  }

  lemma {:induction false} SummariesAgree(s1: Summarizer, s2: Summarizer, chunks: seq<string>)
    requires forall j, i :: 0 <= j < |chunks| && 0 <= i < MaxRetries ==> s1(chunks[j], i) == s2(chunks[j], i)
    ensures Summaries(s1, chunks) == Summaries(s2, chunks)
  {
    if chunks != [] {
      var c := chunks[0];
      RetrySeesOnlyItsAttempts(i => s1(c, i), i => s2(c, i), MaxRetries);
      assert ChunkSummary(s1, c) == ChunkSummary(s2, c);
      assert forall j :: 0 <= j < |chunks[1..]| ==> chunks[1..][j] == chunks[j + 1];
      SummariesAgree(s1, s2, chunks[1..]);
    }
  }

  // ------------------------------------------------------- extractReferences

  datatype NerModel = CamembertNer | BertConll

  /** One token-classification result: its `entity_group` and `word`. */
  datatype Entity = Entity(entityGroup: string, word: string)

  /** The token-classification backend. */
  type Classifier = (NerModel, string) -> Result<seq<Entity>, string>

  const ExtractionFailed := "Failed to extract references"

  /** The entity groups the filter accepts, as listed (with `ORG` twice). */
  const AllowedGroups: seq<string> := ["MISC", "ORG", "PER", "LOC", "PERSON", "ORG", "WORK_OF_ART"]

  predicate Accepted(e: Entity) {
    e.entityGroup in AllowedGroups
  }

  /** `entities.filter(accepted).map(e => cleanReference(e.word))` */
  function CleanedWords(entities: seq<Entity>): (r: seq<string>)
    ensures |r| <= |entities|
    ensures forall k :: 0 <= k < |r| ==> CleanWord(r[k])
  {
    if entities == [] then []
    else
      var rest := CleanedWords(entities[1..]);
      if Accepted(entities[0]) then
        var w := CleanReference(entities[0].word);
        ConsClean(w, rest);
        [w] + rest
      else rest
  }

  lemma ConsClean(w: string, rest: seq<string>)
    requires IsTrimmed(w) && forall i :: 0 <= i < |w| ==> !IsBracket(w[i])
    requires forall k :: 0 <= k < |rest| ==> CleanWord(rest[k])
    ensures forall k :: 0 <= k < |[w] + rest| ==> CleanWord(([w] + rest)[k])
  {
    assert CleanWord(w);
    forall k | 0 <= k < |[w] + rest|
      ensures CleanWord(([w] + rest)[k])
    {
      if k > 0 {
        assert ([w] + rest)[k] == rest[k - 1];
      }
    }
  }

  /** What `cleanReference` guarantees of a word: trimmed, no brackets left. */
  predicate CleanWord(w: string) {
    IsTrimmed(w) && forall i :: 0 <= i < |w| ==> !IsBracket(w[i])
  }

  /** A word is kept exactly when some accepted entity cleans to it. */
  lemma {:induction false} CleanedWordsIff(entities: seq<Entity>, x: string)
    ensures x in CleanedWords(entities) <==> exists e :: e in entities && Accepted(e) && CleanReference(e.word) == x
  {
    if entities != [] {
      var head := entities[0];
      var tail := entities[1..];
      CleanedWordsIff(tail, x);
      if x in CleanedWords(entities) && !(Accepted(head) && CleanReference(head.word) == x) {
        var e :| e in tail && Accepted(e) && CleanReference(e.word) == x;
        assert e in entities;
      }
      if x in CleanedWords(entities) && Accepted(head) && CleanReference(head.word) == x {
        assert head in entities;
      }
      if exists e :: e in entities && Accepted(e) && CleanReference(e.word) == x {
        var e :| e in entities && Accepted(e) && CleanReference(e.word) == x;
        if e != head {
          assert e in tail;
        }
      }
    }
  }

  /** The references one chunk yields: both models run on it, and a failure
      of either fails the chunk. */
  function ChunkReferences(classify: Classifier, chunk: string): (r: Option<seq<string>>)
    ensures r.Some? <==> classify(CamembertNer, chunk).Ok? && classify(BertConll, chunk).Ok?
  {
    match (classify(CamembertNer, chunk), classify(BertConll, chunk))
    case (Ok(ner), Ok(misc)) => Some(CleanedWords(ner + misc))
    case _ => None
  }

  /** Whether reference `x` is found in a chunk: both models succeed there
      and one of them reports an accepted entity that cleans to `x`. */
  predicate FoundIn(classify: Classifier, chunk: string, x: string) {
    && classify(CamembertNer, chunk).Ok? && classify(BertConll, chunk).Ok?
    && exists e :: && e in classify(CamembertNer, chunk).value + classify(BertConll, chunk).value
                   && Accepted(e) && CleanReference(e.word) == x
  }

  /** Every reference added to the set, in the order of the `add` calls, or
      `None` as soon as a chunk fails. */
  function Collect(classify: Classifier, chunks: seq<string>): (r: Option<seq<string>>)
    ensures r.Some? <==> forall j :: 0 <= j < |chunks| ==> ChunkReferences(classify, chunks[j]).Some?
    ensures r.Some? ==> forall k :: 0 <= k < |r.value| ==> CleanWord(r.value[k])
  {
    if chunks == [] then Some([])
    else
      match ChunkReferences(classify, chunks[0])
      case None => None
      case Some(first) =>
        match Collect(classify, chunks[1..])
        case None =>
          assert exists j :: 0 <= j < |chunks[1..]| && ChunkReferences(classify, chunks[1..][j]).None?;
          None
        case Some(rest) =>
          assert forall j :: 1 <= j < |chunks| ==> chunks[j] == chunks[1..][j - 1];
          Some(first + rest)
  }

  /** A chunk's references are exactly the words found in it. */
  lemma ChunkReferencesIff(classify: Classifier, chunk: string, x: string)
    requires ChunkReferences(classify, chunk).Some?
    ensures x in ChunkReferences(classify, chunk).value <==> FoundIn(classify, chunk, x)
  {
    CleanedWordsIff(classify(CamembertNer, chunk).value + classify(BertConll, chunk).value, x);
  }

  /** Filtering and cleaning keep entity order across a concatenation. */
  lemma {:induction false} CleanedWordsAppend(a: seq<Entity>, b: seq<Entity>)
    ensures CleanedWords(a + b) == CleanedWords(a) + CleanedWords(b)
  {
    if a == [] {
      assert a + b == b;
    } else {
      assert (a + b)[1..] == a[1..] + b;
      CleanedWordsAppend(a[1..], b);
    }
  }

  /** A chunk's references list the CamemBERT words before the BERT-CoNLL
      words, each in the order its model reported them. */
  lemma ChunkReferencesOrder(classify: Classifier, chunk: string)
    requires ChunkReferences(classify, chunk).Some?
    ensures ChunkReferences(classify, chunk).value
            == CleanedWords(classify(CamembertNer, chunk).value) + CleanedWords(classify(BertConll, chunk).value)
  {
    CleanedWordsAppend(classify(CamembertNer, chunk).value, classify(BertConll, chunk).value);
  }

  lemma CollectCons(classify: Classifier, chunks: seq<string>)
    requires chunks != [] && Collect(classify, chunks).Some?
    ensures ChunkReferences(classify, chunks[0]).Some? && Collect(classify, chunks[1..]).Some?
    ensures Collect(classify, chunks).value == ChunkReferences(classify, chunks[0]).value + Collect(classify, chunks[1..]).value
  {
  }

  /** Whether `x` is among the references chunk `chunk` yields. */
  predicate YieldedBy(classify: Classifier, chunk: string, x: string) {
    ChunkReferences(classify, chunk).Some? && x in ChunkReferences(classify, chunk).value
  }

  /** The collected references are those some chunk yields. */
  lemma {:induction false} CollectYielded(classify: Classifier, chunks: seq<string>, x: string)
    requires Collect(classify, chunks).Some?
    ensures x in Collect(classify, chunks).value <==> exists j :: 0 <= j < |chunks| && YieldedBy(classify, chunks[j], x)
  {
    if chunks != [] {
      var tail := chunks[1..];
      CollectCons(classify, chunks);
      CollectYielded(classify, tail, x);
      if x in Collect(classify, tail).value {
        var j :| 0 <= j < |tail| && YieldedBy(classify, tail[j], x);
        assert chunks[j + 1] == tail[j];
      }
      if exists j :: 0 <= j < |chunks| && YieldedBy(classify, chunks[j], x) {
        var j :| 0 <= j < |chunks| && YieldedBy(classify, chunks[j], x);
        if j > 0 {
          assert tail[j - 1] == chunks[j];
        }
      }
    }
  }

  /** The collected references are exactly those found in some chunk. */
  lemma CollectIff(classify: Classifier, chunks: seq<string>, x: string)
    requires Collect(classify, chunks).Some?
    ensures x in Collect(classify, chunks).value <==> exists j :: 0 <= j < |chunks| && FoundIn(classify, chunks[j], x)
  {
    CollectYielded(classify, chunks, x);
    forall j | 0 <= j < |chunks|
      ensures YieldedBy(classify, chunks[j], x) <==> FoundIn(classify, chunks[j], x)
    {
      ChunkReferencesIff(classify, chunks[j], x);
    }
  }

  predicate NoDuplicates(s: seq<string>) {
    forall i, j :: 0 <= i < j < |s| ==> s[i] != s[j]
  }

  /** `Array.from(set)` after adding `xs` one by one to an empty `Set`: each
      value once, where it was first added. */
  function Dedup(xs: seq<string>): (r: seq<string>)
    ensures NoDuplicates(r)
    ensures forall x :: x in r <==> x in xs
  {
    if xs == [] then []
    else
      var d := Dedup(xs[..|xs| - 1]);
      var last := xs[|xs| - 1];
      assert forall x :: x in xs <==> x in xs[..|xs| - 1] || x == last by {
        assert xs == xs[..|xs| - 1] + [last];
      }
      if last in d then d else d + [last]
  }

  /** The position where `x` first occurs in `xs`. */
  function FirstIndex(xs: seq<string>, x: string): (k: nat)
    requires x in xs
    ensures k < |xs| && xs[k] == x
    ensures forall j :: 0 <= j < k ==> xs[j] != x
  {
    if xs[0] == x then 0 else 1 + FirstIndex(xs[1..], x)
  }

  /** Appending leaves the first position of an earlier value alone. */
  lemma FirstIndexSnoc(xs: seq<string>, last: string, x: string)
    requires x in xs
    ensures FirstIndex(xs + [last], x) == FirstIndex(xs, x)
  {
    var k := FirstIndex(xs, x);
    var m := FirstIndex(xs + [last], x);
    assert (xs + [last])[k] == x;
  }

  /** The de-duplicated list is ordered by first occurrence. */
  lemma {:induction false} DedupFirstOccurrenceOrder(xs: seq<string>)
    ensures forall i, j :: 0 <= i < j < |Dedup(xs)| ==> FirstIndex(xs, Dedup(xs)[i]) < FirstIndex(xs, Dedup(xs)[j])
  {
    if xs != [] {
      var init := xs[..|xs| - 1];
      var last := xs[|xs| - 1];
      var d := Dedup(init);
      assert xs == init + [last];
      DedupFirstOccurrenceOrder(init);
      forall y | y in d
        ensures FirstIndex(xs, y) == FirstIndex(init, y)
      {
        FirstIndexSnoc(init, last, y);
      }
      if last !in d {
        assert FirstIndex(xs, last) == |xs| - 1;
        forall i, j | 0 <= i < j < |d + [last]|
          ensures FirstIndex(xs, (d + [last])[i]) < FirstIndex(xs, (d + [last])[j])
        {
          assert (d + [last])[i] == d[i];
          if j < |d| {
            assert (d + [last])[j] == d[j];
          } else {
            assert d[i] in init;
          }
        }
      }
    }
  }

  /** A list without duplicates is its own de-duplication. */
  lemma {:induction false} DedupOfDistinct(xs: seq<string>)
    requires NoDuplicates(xs)
    ensures Dedup(xs) == xs
  {
    if xs != [] {
      var init := xs[..|xs| - 1];
      DedupOfDistinct(init);
      assert xs[|xs| - 1] !in init;
      assert init + [xs[|xs| - 1]] == xs;
    }
  }

  /** `extractReferences`: chunk the text, classify every chunk with both
      models, keep accepted entities, clean their words and collect them in a
      set. Any backend failure turns into one fixed error. The empty string
      is a possible reference: a word made only of brackets cleans to it and
      nothing filters it out. */
  function ExtractReferences(classify: Classifier, text: string): (r: Result<seq<string>, string>)
    ensures r.Err? <==> exists j :: && 0 <= j < |SplitTextIntoChunks(text)|
                                    && ChunkReferences(classify, SplitTextIntoChunks(text)[j]).None?
    ensures r.Err? ==> r.error == ExtractionFailed
    ensures r.Ok? ==> NoDuplicates(r.value)
    ensures r.Ok? ==> forall k :: 0 <= k < |r.value| ==> CleanWord(r.value[k])
  {
    match Collect(classify, SplitTextIntoChunks(text))
    case None => Err(ExtractionFailed)
    case Some(all) =>
      assert forall k :: 0 <= k < |Dedup(all)| ==> Dedup(all)[k] in all;
      Ok(Dedup(all))
  }

  /** A reference is returned exactly when some chunk's models report an
      accepted entity that cleans to it. */
  lemma ExtractReferencesIff(classify: Classifier, text: string, x: string)
    requires ExtractReferences(classify, text).Ok?
    ensures x in ExtractReferences(classify, text).value <==>
              exists j :: 0 <= j < |SplitTextIntoChunks(text)| && FoundIn(classify, SplitTextIntoChunks(text)[j], x)
  {
    CollectIff(classify, SplitTextIntoChunks(text), x);
  }

  /** The returned references are in the order they were first added. */
  lemma ExtractReferencesOrder(classify: Classifier, text: string)
    requires ExtractReferences(classify, text).Ok?
    ensures var all := Collect(classify, SplitTextIntoChunks(text)).value;
            var refs := ExtractReferences(classify, text).value;
            forall i, j :: 0 <= i < j < |refs| ==> FirstIndex(all, refs[i]) < FirstIndex(all, refs[j])
  {
    DedupFirstOccurrenceOrder(Collect(classify, SplitTextIntoChunks(text)).value);
  }
}
