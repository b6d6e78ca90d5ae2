/** `AgentOrchestrator.processRequest`: filter the fixed agent list by
    `canHandle`, run every eligible agent on `(task, context)`, fail as a whole
    if any of them fails, and otherwise keep the response with the highest
    confidence, the earliest agent winning a tie. `Promise.all` keeps results in
    agent-list order, so the fan-out is modelled as an in-order map. */
module Orchestrator {
  import opened Wrappers
  import opened Text
  import opened OpenAiService
  import opened Agents

  /** The agents in the order the constructor lists them. */
  const AgentList: seq<AgentKind> := [Summary, QA, Citation, Reference]

  const NoAgent := "No agent available to handle this task"

  /** Position of an agent in `AgentList`. */
  function Rank(kind: AgentKind): (n: nat)
    ensures n < |AgentList| && AgentList[n] == kind
  {
    match kind
    case Summary => 0
    case QA => 1
    case Citation => 2
    case Reference => 3
  }

  /** `agents.filter(accepts)` */
  function Filter(agents: seq<AgentKind>, accepts: AgentKind -> bool): (r: seq<AgentKind>)
    ensures forall a :: a in r <==> a in agents && accepts(a)
    ensures |r| <= |agents|
  {
    if agents == [] then []
    else if accepts(agents[0]) then [agents[0]] + Filter(agents[1..], accepts)
    else Filter(agents[1..], accepts)
  }

  predicate RankSorted(agents: seq<AgentKind>) {
    forall i, j :: 0 <= i < j < |agents| ==> Rank(agents[i]) < Rank(agents[j])
  }

  /** Filtering keeps the relative order of the agents. */
  lemma {:induction false} FilterKeepsOrder(agents: seq<AgentKind>, accepts: AgentKind -> bool)
    requires RankSorted(agents)
    ensures RankSorted(Filter(agents, accepts))
  {
    if agents != [] {
      var rest := Filter(agents[1..], accepts);
      FilterKeepsOrder(agents[1..], accepts);
      if accepts(agents[0]) {
        forall x | x in rest
          ensures Rank(agents[0]) < Rank(x)
        {
          HeadRanksFirst(agents, x);
        }
        ConsSorted(agents[0], rest);
      }
    }
  }

  /** An agent ranked before every agent of a rank-sorted list can lead it. */
  lemma ConsSorted(h: AgentKind, rest: seq<AgentKind>)
    requires RankSorted(rest)
    requires forall x :: x in rest ==> Rank(h) < Rank(x)
    ensures RankSorted([h] + rest)
  {
    var r := [h] + rest;
    forall i, j | 0 <= i < j < |r|
      ensures Rank(r[i]) < Rank(r[j])
    {
      assert r[j] == rest[j - 1];
      if i > 0 {
        assert r[i] == rest[i - 1];
      }
    }
  }

  /** In a rank-sorted list the head outranks everything after it. */
  lemma HeadRanksFirst(agents: seq<AgentKind>, x: AgentKind)
    requires RankSorted(agents) && agents != [] && x in agents[1..]
    ensures Rank(agents[0]) < Rank(x)
  {
    var m :| 0 <= m < |agents[1..]| && agents[1..][m] == x;
    assert agents[m + 1] == x;
  }

  /** The agents whose `canHandle` accepts the task, in list order. */
  function Eligible(task: string): (r: seq<AgentKind>)
    ensures forall a :: a in r <==> CanHandle(a, task)
    ensures RankSorted(r)
  {
    EveryAgentListed();
    FilterKeepsOrder(AgentList, a => CanHandle(a, task));
    Filter(AgentList, a => CanHandle(a, task))
  }

  lemma EveryAgentListed()
    ensures forall a: AgentKind :: a in AgentList
    ensures RankSorted(AgentList)
  {
    forall a: AgentKind
      ensures a in AgentList
    {
      assert AgentList[Rank(a)] == a;
    }
  }

  /** A task exactly one agent accepts is routed to that agent alone. */
  lemma SingleEligible(task: string, a: AgentKind)
    requires forall b :: CanHandle(b, task) <==> b == a
    ensures Eligible(task) == [a]
  {
    var r := Eligible(task);
    assert forall b :: b in r <==> b == a;
    SortedSingleton(r, a);
  }

  /** A rank-sorted list lists every agent at most once. */
  lemma SortedDistinct(r: seq<AgentKind>, i: nat, j: nat)
    requires RankSorted(r) && i < j < |r|
    ensures r[i] in r && r[j] in r && r[i] != r[j]
  {
  }

  /** A rank-sorted list holding one agent and nothing else is that agent
      alone. */
  lemma SortedSingleton(r: seq<AgentKind>, a: AgentKind)
    requires RankSorted(r)
    requires forall b :: b in r <==> b == a
    ensures r == [a]
  {
    assert a in r;
    assert r[0] in r;
    if |r| > 1 {
      SortedDistinct(r, 0, 1);
      assert false;
    }
  }

  /** A rank-sorted list holding two agents and nothing else lists them in
      rank order. */
  lemma SortedPair(r: seq<AgentKind>, a: AgentKind, c: AgentKind)
    requires RankSorted(r) && Rank(a) < Rank(c)
    requires forall b :: b in r <==> b == a || b == c
    ensures r == [a, c]
  {
    assert a in r && c in r;
    var i :| 0 <= i < |r| && r[i] == a;
    var j :| 0 <= j < |r| && r[j] == c;
    assert i < j;
    assert r[0] in r && r[1] in r && r[|r| - 1] in r;
    assert i == 0 && j == 1 && |r| == 2;
  }

  /** With exactly one eligible agent the request returns that agent's
      response unchanged, or its error wrapped once. */
  lemma OnlyEligibleAgent(chat: Chat, task: string, context: string, a: AgentKind)
    requires Eligible(task) == [a]
    ensures Process(chat, a, task, context).Ok? ==> ProcessRequest(chat, task, context) == Process(chat, a, task, context)
    ensures Process(chat, a, task, context).Err? ==>
              ProcessRequest(chat, task, context) == Err(OrchestrationFailure(Process(chat, a, task, context).error))
  {
    var r := RunAll(chat, [a], task, context);
    if Process(chat, a, task, context).Ok? {
      assert r.Ok? && r.value == [Process(chat, a, task, context).value];
      assert Best(r.value) == r.value[0];
    }
  }

  /** The message of the orchestrator's error around a failing agent. */
  function OrchestrationFailure(cause: string): string {
    "Agent processing failed: " + ErrorText(cause)
  }

  /** Run every agent of `agents`, in order; the first failure in list order is
      the one reported. */
  function RunAll(chat: Chat, agents: seq<AgentKind>, task: string, context: string): (r: Result<seq<AgentResponse>, string>)
    ensures r.Ok? ==> && |r.value| == |agents|
                      && forall i :: 0 <= i < |agents| ==> Process(chat, agents[i], task, context) == Ok(r.value[i])
    ensures r.Err? ==> exists i :: && 0 <= i < |agents|
                                   && Process(chat, agents[i], task, context) == Err(r.error)
                                   && forall j :: 0 <= j < i ==> Process(chat, agents[j], task, context).Ok?
  {
    if agents == [] then Ok([])
    else
      match Process(chat, agents[0], task, context)
      case Err(e) => Err(e)
      case Ok(first) =>
        match RunAll(chat, agents[1..], task, context)
        case Err(e) =>
          var i :| && 0 <= i < |agents[1..]|
                   && Process(chat, agents[1..][i], task, context) == Err(e)
                   && forall j :: 0 <= j < i ==> Process(chat, agents[1..][j], task, context).Ok?;
          assert Process(chat, agents[i + 1], task, context) == Err(e);
          Err(e)
        case Ok(rest) => Ok([first] + rest)
  }

  /** The index `results.reduce` ends on when it scans from `i` holding `best`:
      the first position of the maximum confidence. */
  function BestIndexFrom(results: seq<AgentResponse>, best: nat, i: nat): (k: nat)
    requires best < i <= |results|
    requires forall j :: 0 <= j < i ==> results[j].confidence <= results[best].confidence
    requires forall j :: 0 <= j < best ==> results[j].confidence < results[best].confidence
    ensures best <= k < |results|
    ensures forall j :: 0 <= j < |results| ==> results[j].confidence <= results[k].confidence
    ensures forall j :: 0 <= j < k ==> results[j].confidence < results[k].confidence
    decreases |results| - i
  {
    if i == |results| then best
    else if results[i].confidence > results[best].confidence then BestIndexFrom(results, i, i + 1)
    else BestIndexFrom(results, best, i + 1)
  }

  /** `results.reduce((best, cur) => cur.confidence > best.confidence ? cur : best)` */
  function Best(results: seq<AgentResponse>): (r: AgentResponse)
    requires results != []
    ensures exists k :: && 0 <= k < |results| && results[k] == r
                        && forall j :: 0 <= j < k ==> results[j].confidence < r.confidence
    ensures forall j :: 0 <= j < |results| ==> results[j].confidence <= r.confidence
  {
    results[BestIndexFrom(results, 0, 1)]
  }

  function ProcessRequest(chat: Chat, task: string, context: string): (r: Result<AgentResponse, string>)
    ensures Eligible(task) == [] ==> r == Err(NoAgent)
    ensures Eligible(task) != [] && r.Err? ==>
      exists i :: && 0 <= i < |Eligible(task)|
                  && Process(chat, Eligible(task)[i], task, context).Err?
                  && r.error == OrchestrationFailure(Process(chat, Eligible(task)[i], task, context).error)
    ensures r.Ok? ==>
      exists i :: && 0 <= i < |Eligible(task)|
                  && Process(chat, Eligible(task)[i], task, context) == Ok(r.value)
                  && (forall j :: 0 <= j < i ==>
                        && Process(chat, Eligible(task)[j], task, context).Ok?
                        && Process(chat, Eligible(task)[j], task, context).value.confidence < r.value.confidence)
    ensures r.Ok? ==> forall j :: 0 <= j < |Eligible(task)| ==>
      && Process(chat, Eligible(task)[j], task, context).Ok?
      && Process(chat, Eligible(task)[j], task, context).value.confidence <= r.value.confidence
    ensures Eligible(task) != [] && (forall j :: 0 <= j < |Eligible(task)| ==> Process(chat, Eligible(task)[j], task, context).Ok?)
      ==> r.Ok?
  {
    var eligible := Eligible(task);
    if eligible == [] then Err(NoAgent)
    else
      match RunAll(chat, eligible, task, context)
      case Err(e) => Err(OrchestrationFailure(e))
      case Ok(results) => Ok(Best(results))
  }

  /** An empty task matches no keyword and no question form. */
  lemma EmptyTaskUnhandled(chat: Chat, context: string)
    ensures ProcessRequest(chat, "", context) == Err(NoAgent)
  {
    EmptyTaskIneligible();
  }

  lemma EmptyTaskIneligible()
    ensures Eligible("") == []
  {
    assert Lower("") == "";
    NoKeywordInEmpty(SummaryKeywords);
    NoKeywordInEmpty(CitationKeywords);
    NoKeywordInEmpty(ReferenceKeywords);
    EmptyTaskNoQuestion();
    assert forall a: AgentKind :: !CanHandle(a, "");
  }

  lemma EmptyTaskNoQuestion()
    ensures !QaCanHandle("")
  {
    assert Lower("") == "";
    assert |Trim("")| == 0;
  }

  /** The empty text contains no non-empty keyword. */
  lemma NoKeywordInEmpty(kws: seq<string>)
    requires forall k :: 0 <= k < |kws| ==> |kws[k]| > 0
    ensures !ContainsAny("", kws)
  {
  }

  /** Equal confidence is won by the earlier agent: when the citation and the
      reference agent both answer, the citation agent's answer is returned. */
  lemma TieGoesToEarlierAgent(chat: Chat, task: string, context: string)
    requires Eligible(task) == [Citation, Reference]
    requires Process(chat, Citation, task, context).Ok? && Process(chat, Reference, task, context).Ok?
    ensures ProcessRequest(chat, task, context) == Process(chat, Citation, task, context)
  {
    var r := ProcessRequest(chat, task, context);
    assert forall j :: 0 <= j < |Eligible(task)| ==> Process(chat, Eligible(task)[j], task, context).Ok?;
    assert r.Ok?;
    var i :| && 0 <= i < |Eligible(task)|
             && Process(chat, Eligible(task)[i], task, context) == Ok(r.value)
             && (forall j :: 0 <= j < i ==>
                   && Process(chat, Eligible(task)[j], task, context).Ok?
                   && Process(chat, Eligible(task)[j], task, context).value.confidence < r.value.confidence);
    assert i == 0;
  }

  /** A task naming both citations and references. */
  const CiteTask := "cite the references"

  /** The Citation and the Reference agent accept `CiteTask`; the Summary
      and the QA agent do not. */
  lemma CiteTaskAccepted()
    ensures forall b :: CanHandle(b, CiteTask) <==> b == Citation || b == Reference
  {
    CiteTaskLower();
    CiteTaskNotSummary();
    CiteTaskNotQuestion();
    assert CitationCanHandle(CiteTask) by {
      CitationCanHandleIff(CiteTask);
      assert OccursAt(CiteTask, "cite", 0);
    }
    CiteTaskNamesReferences();
  }

  /** `CiteTask` is already in lower case. */
  lemma CiteTaskLower()
    ensures Lower(CiteTask) == CiteTask
  {
    LowerOfLowercase(CiteTask);
  }

  /** `CiteTask` has no "m", "b" or "v", so no summary keyword. */
  lemma CiteTaskNotSummary()
    ensures !SummaryCanHandle(CiteTask)
  {
    CiteTaskLower();
    SummaryCanHandleIff(CiteTask);
    assert 'm' !in CiteTask && 'b' !in CiteTask && 'v' !in CiteTask;
    MissingCharNotContained(CiteTask, "summarize", 'm');
    MissingCharNotContained(CiteTask, "summary", 'm');
    MissingCharNotContained(CiteTask, "brief", 'b');
    MissingCharNotContained(CiteTask, "overview", 'v');
  }

  /** `CiteTask` neither ends with "?" nor starts with a question word. */
  lemma CiteTaskNotQuestion()
    ensures !QaCanHandle(CiteTask)
  {
    var t := CiteTask;
    assert t[0] == 'c' && t[|t| - 1] == 's';
    assert IsTrimmed(t);
    TrimOfTrimmed(t);
    LastCharNotSuffix(t, "?");
    CiteTaskLower();
    FirstCharNotPrefix(t, "what");
    FirstCharNotPrefix(t, "how");
    FirstCharNotPrefix(t, "why");
  }

  /** "references" sits at position 9 of `CiteTask`. */
  lemma CiteTaskNamesReferences()
    ensures ReferenceCanHandle(CiteTask)
  {
    CiteTaskLower();
    ReferenceCanHandleIff(CiteTask);
    assert CiteTask[9..19] == "references";
    assert OccursAt(CiteTask, "references", 9);
  }

  /** `CiteTask` reaches the Citation and the Reference agent, in that order. */
  lemma CiteTaskEligible()
    ensures Eligible(CiteTask) == [Citation, Reference]
  {
    CiteTaskAccepted();
    SortedPair(Eligible(CiteTask), Citation, Reference);
  }

  /** When both agents answer `CiteTask`, the Citation agent's answer is
      returned: the tie on confidence goes to the earlier agent. */
  lemma CiteTheReferences(chat: Chat, context: string)
    requires Process(chat, Citation, CiteTask, context).Ok?
    requires Process(chat, Reference, CiteTask, context).Ok?
    ensures ProcessRequest(chat, CiteTask, context) == Process(chat, Citation, CiteTask, context)
  {
    CiteTaskEligible();
    TieGoesToEarlierAgent(chat, CiteTask, context);
  }
}
