// Several crawlers explore the same labyrinth at once; the first one to
// find the exit wins and the others are told to stop.
//
// The concurrency is replaced by its observable outcome: the order in which
// the participants complete and how each one's exploration ended are
// inputs. The orchestrator's own logic, the argument checks, the result
// each participant reports and the fold that picks the winner, is modelled
// as written.

module Orchestration {
  import opened Tiles
  import opened Options

  /** Which argument a check rejected. */
  datatype ArgumentError = MaxCrawlersOutOfRange | CrawlerCountOutOfRange | MaxStepsOutOfRange

  datatype Result<T> = Ok(value: T) | Err(error: ArgumentError)

  /** What one participant reports when its exploration ends. */
  datatype CrawlerResult = CrawlerResult(crawlerId: int, foundExit: bool, stepsRemaining: int, wasCancelled: bool)

  /**
   * How a participant's run ended: its exploration was cancelled, or it
   * returned a budget and the final look at the faced tile was cancelled,
   * or both completed and the crawler faced the given tile type.
   */
  datatype ExploreOutcome =
    | ExploreCancelled
    | FacingCancelled(stepsLeft: int)
    | Explored(stepsLeft: int, facing: TileType)

  /** The notifications an orchestrator raises. */
  datatype OrchestratorEvent = CrawlerStarted(crawlerId: int) | CrawlerFinished(result: CrawlerResult) | CancelRequested

  datatype CrawlerOrchestrator = CrawlerOrchestrator(maxCrawlers: int)

  /** Between one and three crawlers may be allowed. */
  function NewOrchestrator(maxCrawlers: int): (r: Result<CrawlerOrchestrator>)
    ensures r.Ok? <==> 1 <= maxCrawlers <= 3
    ensures r.Ok? ==> r.value.maxCrawlers == maxCrawlers
    ensures r.Err? ==> r.error == MaxCrawlersOutOfRange
  {
    if maxCrawlers < 1 then Err(MaxCrawlersOutOfRange)
    else if maxCrawlers > 3 then Err(MaxCrawlersOutOfRange)
    else Ok(CrawlerOrchestrator(maxCrawlers))
  }

  /** The argument checks a run performs before anything else, in order. */
  function ValidateRun(maxCrawlers: int, crawlerCount: int, maxSteps: int): (r: Option<ArgumentError>)
    ensures r.None? <==> 1 <= crawlerCount <= maxCrawlers && maxSteps > 0
    ensures r == Some(CrawlerCountOutOfRange) <==> !(1 <= crawlerCount <= maxCrawlers)
    ensures r == Some(MaxStepsOutOfRange) <==> 1 <= crawlerCount <= maxCrawlers && maxSteps <= 0
  {
    if crawlerCount < 1 then Some(CrawlerCountOutOfRange)
    else if crawlerCount > maxCrawlers then Some(CrawlerCountOutOfRange)
    else if maxSteps <= 0 then Some(MaxStepsOutOfRange)
    else None
  }

  /**
   * The result a participant reports: a cancelled participant keeps the
   * budget it held and never claims the exit; otherwise it found the exit
   * exactly when it ended facing the outside.
   */
  function RunSingleCrawler(crawlerId: int, maxSteps: int, outcome: ExploreOutcome): (r: CrawlerResult)
    ensures r.crawlerId == crawlerId
    ensures r.wasCancelled ==> !r.foundExit
    ensures r.wasCancelled <==> !outcome.Explored?
    ensures outcome.ExploreCancelled? ==> r.stepsRemaining == maxSteps
    ensures !outcome.ExploreCancelled? ==> r.stepsRemaining == outcome.stepsLeft
    ensures r.foundExit <==> outcome.Explored? && outcome.facing == OutsideType
  {
    match outcome
    case ExploreCancelled => CrawlerResult(crawlerId, false, maxSteps, true)
    case FacingCancelled(steps) => CrawlerResult(crawlerId, false, steps, true)
    case Explored(steps, facing) => CrawlerResult(crawlerId, facing == OutsideType, steps, false)
  }

  /** The ids 1..n, in creation order. */
  function Ids(n: nat): (r: seq<int>)
    ensures |r| == n && forall i :: 0 <= i < n ==> r[i] == i + 1
  {
    if n == 0 then [] else Ids(n - 1) + [n]
  }

  /** The participants' results in completion order. */
  function Results(order: seq<int>, outcomes: seq<ExploreOutcome>, maxSteps: int): (r: seq<CrawlerResult>)
    requires forall i :: 0 <= i < |order| ==> 1 <= order[i] <= |outcomes|
    ensures |r| == |order|
    ensures forall i :: 0 <= i < |order| ==> r[i] == RunSingleCrawler(order[i], maxSteps, outcomes[order[i] - 1])
  {
    if |order| == 0 then []
    else Results(order[..|order| - 1], outcomes, maxSteps)
         + [RunSingleCrawler(order[|order| - 1], maxSteps, outcomes[order[|order| - 1] - 1])]
  }

  /** The first result that found the exit, if any. */
  function FirstExit(results: seq<CrawlerResult>): Option<CrawlerResult>
  {
    if |results| == 0 then None
    else if results[0].foundExit then Some(results[0])
    else FirstExit(results[1..])
  }

  /**
   * The winner is the earliest result that found the exit; there is none
   * exactly when no result found it.
   */
  lemma {:induction false} FirstExitIsEarliest(results: seq<CrawlerResult>)
    ensures FirstExit(results).None? <==> forall i :: 0 <= i < |results| ==> !results[i].foundExit
    ensures FirstExit(results).Some? ==>
      exists k :: 0 <= k < |results| && FirstExit(results) == Some(results[k]) && results[k].foundExit &&
                  forall i :: 0 <= i < k ==> !results[i].foundExit
  {
    if |results| > 0 && !results[0].foundExit {
      var rest := results[1..];
      FirstExitIsEarliest(rest);
      if FirstExit(rest).Some? {
        var k :| 0 <= k < |rest| && FirstExit(rest) == Some(rest[k]) && rest[k].foundExit &&
                 forall i :: 0 <= i < k ==> !rest[i].foundExit;
        assert results[k + 1] == rest[k];
        forall i | 0 <= i < k + 1
          ensures !results[i].foundExit
        {
          if i > 0 { assert results[i] == rest[i - 1]; }
        }
      } else {
        forall i | 0 <= i < |results|
          ensures !results[i].foundExit
        {
          if i > 0 { assert results[i] == rest[i - 1]; }
        }
      }
    }
  }

  /** Results completing after the winner never replace it. */
  lemma {:induction false} FirstExitStable(results: seq<CrawlerResult>, later: seq<CrawlerResult>)
    requires FirstExit(results).Some?
    ensures FirstExit(results + later) == FirstExit(results)
  {
    if !results[0].foundExit {
      assert (results + later)[1..] == results[1..] + later;
      FirstExitStable(results[1..], later);
    }
  }

  /** The notifications raised by starting participants 1..n. */
  function StartLog(n: nat): (r: seq<OrchestratorEvent>)
    ensures |r| == n && forall i :: 0 <= i < n ==> r[i] == CrawlerStarted(i + 1)
  {
    if n == 0 then [] else StartLog(n - 1) + [CrawlerStarted(n)]
  }

  /**
   * The notifications raised while results come in, given whether a winner
   * has been chosen already: one CrawlerFinished per result, and one
   * CancelRequested right after the first that found the exit.
   */
  function FinishLog(results: seq<CrawlerResult>, decided: bool): seq<OrchestratorEvent>
  {
    if |results| == 0 then []
    else
      [CrawlerFinished(results[0])]
      + (if results[0].foundExit && !decided then [CancelRequested] else [])
      + FinishLog(results[1..], decided || results[0].foundExit)
  }

  function CountFinished(log: seq<OrchestratorEvent>): nat
  {
    if |log| == 0 then 0 else (if log[0].CrawlerFinished? then 1 else 0) + CountFinished(log[1..])
  }

  function CountCancels(log: seq<OrchestratorEvent>): nat
  {
    if |log| == 0 then 0 else (if log[0].CancelRequested? then 1 else 0) + CountCancels(log[1..])
  }

  lemma CountsAppend(a: seq<OrchestratorEvent>, b: seq<OrchestratorEvent>)
    ensures CountFinished(a + b) == CountFinished(a) + CountFinished(b)
    ensures CountCancels(a + b) == CountCancels(a) + CountCancels(b)
  {
    if |a| == 0 {
      assert a + b == b;
    } else {
      assert (a + b)[0] == a[0];
      assert (a + b)[1..] == a[1..] + b;
      CountsAppend(a[1..], b);
    }
  }

  /**
   * Every result raises exactly one CrawlerFinished, and cancellation is
   * requested once if some result found the exit and no winner was chosen
   * before, and never otherwise.
   */
  lemma {:induction false} FinishLogCounts(results: seq<CrawlerResult>, decided: bool)
    ensures CountFinished(FinishLog(results, decided)) == |results|
    ensures CountCancels(FinishLog(results, decided)) == if !decided && FirstExit(results).Some? then 1 else 0
  {
    if |results| > 0 {
      var head := [CrawlerFinished(results[0])] + (if results[0].foundExit && !decided then [CancelRequested] else []);
      FinishLogCounts(results[1..], decided || results[0].foundExit);
      CountsAppend(head, FinishLog(results[1..], decided || results[0].foundExit));
      CountsAppend([CrawlerFinished(results[0])], if results[0].foundExit && !decided then [CancelRequested] else []);
      if decided || results[0].foundExit {
        FinishLogNoCancel(results[1..]);
      }
    }
  }

  /** Once a winner is chosen, no further cancellation is requested. */
  lemma {:induction false} FinishLogNoCancel(results: seq<CrawlerResult>)
    ensures CountCancels(FinishLog(results, true)) == 0
  {
    if |results| > 0 {
      FinishLogNoCancel(results[1..]);
      CountsAppend([CrawlerFinished(results[0])], FinishLog(results[1..], true));
    }
  }

  lemma FinishLogSnoc(results: seq<CrawlerResult>, decided: bool, x: CrawlerResult)
    ensures FinishLog(results + [x], decided) ==
      FinishLog(results, decided) + [CrawlerFinished(x)]
      + (if x.foundExit && !(decided || FirstExit(results).Some?) then [CancelRequested] else [])
  {
    if |results| > 0 {
      assert (results + [x])[1..] == results[1..] + [x];
      FinishLogSnoc(results[1..], decided || results[0].foundExit, x);
    }
  }

  lemma FirstExitSnoc(results: seq<CrawlerResult>, x: CrawlerResult)
    ensures FirstExit(results + [x]) == if FirstExit(results).Some? then FirstExit(results) else if x.foundExit then Some(x) else None
  {
    if |results| > 0 {
      assert (results + [x])[1..] == results[1..] + [x];
      FirstExitSnoc(results[1..], x);
    }
  }

  /** `order` lists each of the ids 1..n exactly once. */
  predicate IsCompletionOrder(order: seq<int>, n: nat)
  {
    && |order| == n
    && (forall i :: 0 <= i < n ==> 1 <= order[i] <= n)
    && (forall i, k :: 0 <= i < k < n ==> order[i] != order[k])
  }

  /** `s` with the first occurrence of `x` taken out. */
  function Remove(s: seq<int>, x: int): (r: seq<int>)
    ensures forall y :: y in s && y != x ==> y in r
    ensures x in s ==> |r| == |s| - 1
    ensures x !in s ==> r == s
  {
    if |s| == 0 then []
    else if s[0] == x then s[1..]
    else [s[0]] + Remove(s[1..], x)
  }

  /** Every participant of a completion order has been started. */
  lemma StartedAll(order: seq<int>, n: nat, tasks: seq<int>)
    requires IsCompletionOrder(order, n) && tasks == Ids(n)
    ensures forall i :: 0 <= i < |order| ==> order[i] in tasks
  {
    forall i | 0 <= i < |order|
      ensures order[i] in tasks
    {
      assert tasks[order[i] - 1] == order[i];
    }
  }

  /** Creates and starts participants 1..n, in that order, announcing each. */
  method StartCrawlers(n: nat) returns (tasks: seq<int>, log: seq<OrchestratorEvent>)
    ensures tasks == Ids(n) && log == StartLog(n)
  {
    log := [];
    tasks := [];
    for i := 0 to n
      invariant tasks == Ids(i) && log == StartLog(i)
    {
      var crawlerId := i + 1;
      log := log + [CrawlerStarted(crawlerId)];
      tasks := tasks + [crawlerId];
    }
  }

  /**
   * Runs `crawlerCount` participants: starts them with ids 1..crawlerCount,
   * then takes their results in completion order, reports each, and keeps
   * the first that found the exit, asking the others to stop at that point.
   */
  method RunAsync(orchestrator: CrawlerOrchestrator, crawlerCount: int, maxSteps: int,
                  order: seq<int>, outcomes: seq<ExploreOutcome>)
    returns (r: Result<Option<CrawlerResult>>, log: seq<OrchestratorEvent>)
    requires ValidateRun(orchestrator.maxCrawlers, crawlerCount, maxSteps).None? ==>
      IsCompletionOrder(order, crawlerCount) && |outcomes| == crawlerCount
    ensures ValidateRun(orchestrator.maxCrawlers, crawlerCount, maxSteps).Some? ==>
      r == Err(ValidateRun(orchestrator.maxCrawlers, crawlerCount, maxSteps).value) && log == []
    ensures ValidateRun(orchestrator.maxCrawlers, crawlerCount, maxSteps).None? ==>
      && (forall i :: 0 <= i < |order| ==> 1 <= order[i] <= |outcomes|)
      && r == Ok(FirstExit(Results(order, outcomes, maxSteps)))
      && log == StartLog(crawlerCount) + FinishLog(Results(order, outcomes, maxSteps), false)
  {
    var err := ValidateRun(orchestrator.maxCrawlers, crawlerCount, maxSteps);
    if err.Some? {
      return Err(err.value), [];
    }

    var tasks, started := StartCrawlers(crawlerCount);
    StartedAll(order, crawlerCount, tasks);
    var winner;
    winner, log := CollectResults(order, outcomes, maxSteps, tasks, started);
    return Ok(winner), log;
  }

  /**
   * Awaiting the participants `tasks` in the order they complete: each
   * finish is logged, and the first one out of the labyrinth becomes the
   * winner, at which point the others are asked to stop.
   */
  method CollectResults(order: seq<int>, outcomes: seq<ExploreOutcome>, maxSteps: int,
                        tasks: seq<int>, start: seq<OrchestratorEvent>)
    returns (winner: Option<CrawlerResult>, log: seq<OrchestratorEvent>)
    requires forall i :: 0 <= i < |order| ==> 1 <= order[i] <= |outcomes|
    requires forall i, k :: 0 <= i < k < |order| ==> order[i] != order[k]
    requires Awaiting(order, 0, tasks)
    ensures winner == FirstExit(Results(order, outcomes, maxSteps))
    ensures log == start + FinishLog(Results(order, outcomes, maxSteps), false)
  {
    var pending := tasks;
    winner := None;
    log := start;
    var j := 0;
    assert order[..j] == [];
    assert FinishLog(Results(order[..j], outcomes, maxSteps), false) == [];
    while |pending| > 0
      invariant Awaiting(order, j, pending)
      invariant winner == FirstExit(Results(order[..j], outcomes, maxSteps))
      invariant log == start + FinishLog(Results(order[..j], outcomes, maxSteps), false)
      decreases |pending|
    {
      var completed := order[j];
      AwaitingStep(order, j, pending);
      pending := Remove(pending, completed);

      var result := RunSingleCrawler(completed, maxSteps, outcomes[completed - 1]);
      ghost var before := log;
      log := log + [CrawlerFinished(result)];
      if result.foundExit && winner.None? {
        winner := Some(result);
        // the other participants are asked to stop
        log := log + [CancelRequested];
      }
      CollectStep(order, outcomes, maxSteps, j, start, before, log, winner);
      j := j + 1;
    }
    assert order[..j] == order;
  }

  /** After `j` completions, `pending` holds exactly one entry per participant still to complete. */
  predicate Awaiting(order: seq<int>, j: int, pending: seq<int>)
  {
    && 0 <= j <= |order| && |pending| == |order| - j
    && forall i :: j <= i < |order| ==> order[i] in pending
  }

  /** Taking the `j`-th completed participant out of `pending`. */
  lemma AwaitingStep(order: seq<int>, j: int, pending: seq<int>)
    requires forall i, k :: 0 <= i < k < |order| ==> order[i] != order[k]
    requires Awaiting(order, j, pending) && j < |order|
    ensures Awaiting(order, j + 1, Remove(pending, order[j]))
  {
  }

  /** Reporting the `j`-th completion keeps the winner and the log in step with the results so far. */
  lemma CollectStep(order: seq<int>, outcomes: seq<ExploreOutcome>, maxSteps: int, j: nat,
                    start: seq<OrchestratorEvent>, before: seq<OrchestratorEvent>, after: seq<OrchestratorEvent>,
                    winner: Option<CrawlerResult>)
    requires forall i :: 0 <= i < |order| ==> 1 <= order[i] <= |outcomes|
    requires j < |order|
    requires before == start + FinishLog(Results(order[..j], outcomes, maxSteps), false)
    requires
      var x := RunSingleCrawler(order[j], maxSteps, outcomes[order[j] - 1]);
      var w := FirstExit(Results(order[..j], outcomes, maxSteps));
      && (after == before + [CrawlerFinished(x)] + (if x.foundExit && w.None? then [CancelRequested] else []))
      && winner == (if x.foundExit && w.None? then Some(x) else w)
    ensures after == start + FinishLog(Results(order[..j + 1], outcomes, maxSteps), false)
    ensures winner == FirstExit(Results(order[..j + 1], outcomes, maxSteps))
  {
    var x := RunSingleCrawler(order[j], maxSteps, outcomes[order[j] - 1]);
    var done := Results(order[..j], outcomes, maxSteps);
    ResultsStep(order, outcomes, maxSteps, j);
    FinishLogSnoc(done, false, x);
    FirstExitSnoc(done, x);
    assert after == start + (FinishLog(done, false) + [CrawlerFinished(x)]
      + (if x.foundExit && FirstExit(done).None? then [CancelRequested] else []));
  }

  lemma ResultsStep(order: seq<int>, outcomes: seq<ExploreOutcome>, maxSteps: int, j: nat)
    requires forall i :: 0 <= i < |order| ==> 1 <= order[i] <= |outcomes|
    requires j < |order|
    ensures Results(order[..j + 1], outcomes, maxSteps) ==
      Results(order[..j], outcomes, maxSteps) + [RunSingleCrawler(order[j], maxSteps, outcomes[order[j] - 1])]
  {
    assert order[..j + 1][..j] == order[..j];
  }
}
