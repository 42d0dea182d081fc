/** The download loops of the asynchronous console demo, run one step at a
    time: the sequential loop and the speed-up figure of Task3, the
    cancellable loop of Task4 and the winner search of Task5. What each
    request does is an input (one HttpExchange per URL); the timer of the
    cancellation source is the index of the first check that sees it
    cancelled; Task.WhenAny is a nondeterministic choice. */
module ConsoleAppAsync {
  import opened Wrappers
  import opened Text
  import opened Linq
  import opened GitHubService

  /** One URL and what the HTTP layer does when it is requested. */
  datatype Fetch = Fetch(url: string, exchange: HttpExchange)

  function Download(f: Fetch): Download {
    DownloadWebPage(f.url, f.exchange)
  }

  predicate Fails(f: Fetch) {
    Download(f).Raised?
  }

  /** CancellationTokenSource: a token that goes from active to cancelled, once. */
  class CancellationTokenSource {
    var cancelled: bool

    constructor ()
      ensures !cancelled
    {
      cancelled := false;
    }

    /** Cancel / CancelAsync. */
    method Cancel()
      modifies this
      ensures cancelled
    {
      cancelled := true;
    }
  }

  // ---------------------------------------------------------------------
  // Task3: sequential downloads and the speed-up figure

  /** How the sequential loop ends: every URL was downloaded, or the first
      failure reached the handler after the loop. */
  datatype SequentialRun = SequentialRun(fetched: seq<string>, error: Option<Exception>)

  /** Task3, variant 1: the URLs are downloaded one after the other; the first exception
      leaves the loop. Returns the URLs requested, in order, and that exception. */
  method SequentialDownload(fetches: seq<Fetch>) returns (run: SequentialRun)
    ensures match FirstIndexWhere(fetches, Fails)
      case None => run.error == None && |run.fetched| == |fetches|
      case Some(k) => run.error == Some(Download(fetches[k]).error) && |run.fetched| == k + 1
    ensures forall i :: 0 <= i < |run.fetched| ==> run.fetched[i] == fetches[i].url
  {
    var fetched: seq<string> := [];
    var i := 0;
    while i < |fetches|
      invariant 0 <= i <= |fetches| && |fetched| == i
      invariant forall k :: 0 <= k < i ==> fetched[k] == fetches[k].url && !Fails(fetches[k])
    {
      fetched := fetched + [fetches[i].url];
      var outcome := Download(fetches[i]);
      if outcome.Raised? {
        run := SequentialRun(fetched, Some(outcome.error));
        return;
      }
      i := i + 1;
    }
    run := SequentialRun(fetched, None);
  }

  /** The speed-up printed by Task3: whole milliseconds divided, the divisor raised to at least 1. */
  function SpeedUp(sequentialMs: nat, parallelMs: nat): (r: nat)
    ensures var d := if parallelMs < 1 then 1 else parallelMs;
      r * d <= sequentialMs < (r + 1) * d
  {
    sequentialMs / (if parallelMs < 1 then 1 else parallelMs)
  }

  // ---------------------------------------------------------------------
  // Task4: the cancellable loop

  /** What happened to one requested URL. */
  datatype Step = Downloaded(url: string) | Skipped(url: string) | Failed(url: string)

  /** Which handler ends Task4: the loop ran out, the OperationCanceledException handler, or the general one. */
  datatype Exit = AllDownloaded | CancelHandler | ErrorHandler(error: Exception)

  datatype CancellableRun = CancellableRun(steps: seq<Step>, exit: Exit)

  /** The `when` filter: an HttpRequestException whose message mentions 403 or rate limit, ignoring case. */
  function IsSkippable(e: Exception): (skip: bool)
    ensures skip ==> e.kind.HttpRequest? && !IsOperationCanceled(e)
    ensures e.kind.HttpRequest? && (Contains(e.message, "403") || Contains(e.message, RateLimitMark)) ==> skip
  {
    ContainsImpliesIgnoreCase(e.message, "403");
    ContainsImpliesIgnoreCase(e.message, RateLimitMark);
    e.kind.HttpRequest? && (ContainsIgnoreCase(e.message, "403") || ContainsIgnoreCase(e.message, RateLimitMark))
  }

  /** One download, as the loop body sees it: go on after it, or leave through a handler. */
  datatype StepOutcome = Continue(step: Step) | Stop(step: Step, exit: Exit)

  function StepOf(f: Fetch): (o: StepOutcome)
    ensures o.Continue? <==> !Fails(f) || IsSkippable(Download(f).error)
    ensures o.Stop? && o.exit == CancelHandler <==> Fails(f) && IsOperationCanceled(Download(f).error)
  {
    match Download(f)
    case Returned(_) => Continue(Downloaded(f.url))
    case Raised(e) =>
      if IsSkippable(e) then Continue(Skipped(f.url))
      else if IsOperationCanceled(e) then Stop(Failed(f.url), CancelHandler)
      else Stop(Failed(f.url), ErrorHandler(e))
  }

  /** Task4 as a function of the requests and of cancelAt, the index of the first
      cancellation check that finds the token cancelled. */
  function Cancellable(fetches: seq<Fetch>, cancelAt: nat): (run: CancellableRun)
    ensures |run.steps| <= |fetches|
    ensures run.exit == AllDownloaded ==> |run.steps| == |fetches| <= cancelAt
  {
    if fetches == [] then CancellableRun([], AllDownloaded)
    else if cancelAt == 0 then CancellableRun([], CancelHandler)
    else match StepOf(fetches[0])
      case Stop(step, exit) => CancellableRun([step], exit)
      case Continue(step) =>
        var rest := Cancellable(fetches[1..], cancelAt - 1);
        CancellableRun([step] + rest.steps, rest.exit)
  }

  /** A run that had already produced steps before it reached run. */
  function After(steps: seq<Step>, run: CancellableRun): CancellableRun {
    CancellableRun(steps + run.steps, run.exit)
  }

  /** One iteration of Task4 from URL i on, after the steps already taken. */
  lemma CancellableStep(fetches: seq<Fetch>, i: nat, cancelAt: nat, steps: seq<Step>)
    requires i < |fetches| && i < cancelAt
    ensures After(steps, Cancellable(fetches[i..], cancelAt - i)) ==
      match StepOf(fetches[i])
      case Stop(step, exit) => CancellableRun(steps + [step], exit)
      case Continue(step) => After(steps + [step], Cancellable(fetches[i + 1..], cancelAt - (i + 1)))
  {
    assert fetches[i..][0] == fetches[i] && fetches[i..][1..] == fetches[i + 1..];
    match StepOf(fetches[i])
    case Stop(step, exit) =>
    case Continue(step) =>
      var rest := Cancellable(fetches[i + 1..], cancelAt - (i + 1)).steps;
      assert steps + ([step] + rest) == (steps + [step]) + rest;
  }

  /** Task4_Cancellation: check the token, download, skip rate-limit errors, repeat. The timer
      that cancels the source fires just before the check of URL cancelAt. */
  method CancellableDownload(fetches: seq<Fetch>, cancelAt: nat) returns (run: CancellableRun)
    ensures run == Cancellable(fetches, cancelAt)
  {
    var cts := new CancellationTokenSource();
    var steps: seq<Step> := [];
    var i := 0;
    assert fetches[0..] == fetches;
    while i < |fetches|
      invariant 0 <= i <= |fetches| && i <= cancelAt
      invariant !cts.cancelled
      invariant Cancellable(fetches, cancelAt) == After(steps, Cancellable(fetches[i..], cancelAt - i))
    {
      if i == cancelAt {
        cts.Cancel();
      }
      if cts.cancelled {
        assert fetches[i..] != [];
        run := CancellableRun(steps, CancelHandler);
        return;
      }
      CancellableStep(fetches, i, cancelAt, steps);
      match StepOf(fetches[i]) {
        case Stop(step, exit) =>
          run := CancellableRun(steps + [step], exit);
          return;
        case Continue(step) =>
          steps := steps + [step];
      }
      i := i + 1;
    }
    assert fetches[i..] == [];
    run := CancellableRun(steps, AllDownloaded);
  }

  /** The URLs are requested in input order, and none at or after the check that saw the cancellation. */
  lemma {:induction false} CancellableInOrder(fetches: seq<Fetch>, cancelAt: nat)
    ensures var run := Cancellable(fetches, cancelAt);
      && |run.steps| <= cancelAt
      && forall i :: 0 <= i < |run.steps| ==> run.steps[i].url == fetches[i].url
  {
    if fetches != [] && cancelAt != 0 {
      CancellableInOrder(fetches[1..], cancelAt - 1);
    }
  }

  /** The token checks run before every request: when it is seen cancelled, Task4 ends in the cancellation handler. */
  lemma {:induction false} CancellationReachesHandler(fetches: seq<Fetch>, cancelAt: nat)
    requires cancelAt < |fetches|
    requires forall i :: 0 <= i < cancelAt ==> StepOf(fetches[i]).Continue?
    ensures Cancellable(fetches, cancelAt) == CancellableRun(Cancellable(fetches, cancelAt).steps, CancelHandler)
    ensures |Cancellable(fetches, cancelAt).steps| == cancelAt
  {
    if cancelAt != 0 {
      CancellationReachesHandler(fetches[1..], cancelAt - 1);
    }
  }

  /** An error that is not skipped ends the loop at that URL: it is the last one requested. */
  lemma {:induction false} ErrorIsLastStep(fetches: seq<Fetch>, cancelAt: nat)
    ensures var run := Cancellable(fetches, cancelAt);
      && (forall i :: 0 <= i < |run.steps| - 1 ==> !run.steps[i].Failed?)
      && (run.exit.ErrorHandler? ==> |run.steps| > 0 && run.steps[|run.steps| - 1].Failed?)
      && (|run.steps| > 0 && run.steps[|run.steps| - 1].Failed? ==> !run.exit.AllDownloaded?)
  {
    if fetches != [] && cancelAt != 0 {
      ErrorIsLastStep(fetches[1..], cancelAt - 1);
    }
  }

  /** A 403 response is skipped: the loop goes on with the next URL. */
  lemma ForbiddenIsSkipped(url: string, reasonPhrase: string, content: Result<string, Exception>)
    ensures StepOf(Fetch(url, Responded(Forbidden, reasonPhrase, content))) == Continue(Skipped(url))
  {
    ForbiddenIsRateLimit(url, reasonPhrase, content);
  }

  /** A request cancelled inside the HTTP client comes out of the service as an HttpRequestException,
      so it never reaches the cancellation handler: it is skipped or ends in the general one. */
  lemma CancelledRequestAvoidsCancelHandler(url: string, e: Exception)
    requires e.kind.TaskCanceled?
    ensures var o := StepOf(Fetch(url, SendFailed(e)));
      o == Continue(Skipped(url)) || (o.Stop? && o.exit.ErrorHandler? && o.exit.error.inner == Some(e))
  {
    CancelledRequestIsHttpError(url, e);
  }

  // ---------------------------------------------------------------------
  // Task5: the race

  /** The tuple a race task completes with; no exception leaves a race task. */
  datatype RaceResult = RaceResult(apiName: Option<string>, success: bool)

  /** One race task: the API's name on success, (null, false) on any exception. */
  function RaceTask(apiName: string, f: Fetch): (r: RaceResult)
    ensures r.success <==> !Fails(f)
    ensures r.success <==> r.apiName == Some(apiName)
    ensures !r.success ==> r.apiName == None
  {
    match Download(f)
    case Returned(_) => RaceResult(Some(apiName), true)
    case Raised(_) => RaceResult(None, false)
  }

  datatype RaceOutcome = RaceOutcome(winner: Option<string>, observed: seq<nat>, cancelRequested: bool)

  predicate Distinct(s: seq<nat>) {
    forall i, j :: 0 <= i < j < |s| ==> s[i] != s[j]
  }

  lemma AppendDistinct(s: seq<nat>, x: nat)
    requires Distinct(s) && x !in s
    ensures Distinct(s + [x])
  {
    forall i, j | 0 <= i < j < |s| + 1 ensures (s + [x])[i] != (s + [x])[j] {
      if j == |s| { assert (s + [x])[i] == s[i] && s[i] in s; }
    }
  }

  /** List.Remove of the element at position j. */
  function RemoveAt(s: seq<nat>, j: nat): (r: seq<nat>)
    requires j < |s| && Distinct(s)
    ensures |r| == |s| - 1 && Distinct(r)
    ensures forall k :: k in r <==> k in s && k != s[j]
  {
    var r := s[..j] + s[j + 1..];
    assert forall m :: 0 <= m < |r| ==> r[m] == if m < j then s[m] else s[m + 1];
    forall k | k in s && k != s[j] ensures k in r {
      var m :| 0 <= m < |s| && s[m] == k;
      if m < j { assert r[m] == k; } else { assert r[m - 1] == k; }
    }
    r
  }

  /** One entry of the apis dictionary: the API's name and the request for its URL. */
  datatype Api = Api(name: string, fetch: Fetch)

  /** Task5_TaskRace: start one race task per API, then take the completed tasks one at a
      time, in an order the scheduler picks; the first winner cancels the others and ends
      the race. observed lists the tasks taken, by position in apis. */
  method TaskRace(apis: seq<Api>) returns (out: RaceOutcome)
    ensures |out.observed| <= |apis| && Distinct(out.observed)
    ensures forall i :: 0 <= i < |out.observed| ==> out.observed[i] < |apis|
    ensures out.winner.Some? <==> exists k :: 0 <= k < |apis| && !Fails(apis[k].fetch)
    ensures out.winner.Some? ==>
      && |out.observed| > 0
      && var last := out.observed[|out.observed| - 1];
      && out.winner == Some(apis[last].name) && !Fails(apis[last].fetch)
      && forall i :: 0 <= i < |out.observed| - 1 ==> Fails(apis[out.observed[i]].fetch)
    ensures out.winner.None? ==> |out.observed| == |apis|
    ensures out.cancelRequested <==> out.winner.Some?
  {
    var results := Select(apis, (a: Api) => RaceTask(a.name, a.fetch));
    var cts := new CancellationTokenSource();
    var pending: seq<nat> := seq(|apis|, i => i);
    var observed: seq<nat> := [];
    forall k | 0 <= k < |apis| ensures k in pending {
      assert pending[k] == k;
    }
    while |pending| > 0
      invariant !cts.cancelled
      invariant |observed| + |pending| == |apis|
      invariant forall i :: 0 <= i < |pending| ==> pending[i] < |apis|
      invariant forall i :: 0 <= i < |observed| ==> observed[i] < |apis| && Fails(apis[observed[i]].fetch)
      invariant forall k :: 0 <= k < |apis| ==> (k in pending <==> k !in observed)
      invariant Distinct(pending) && Distinct(observed)
      decreases |pending|
    {
      var j :| 0 <= j < |pending|;
      var completed := pending[j];
      assert completed !in observed;
      AppendDistinct(observed, completed);
      observed := observed + [completed];
      var result := results[completed];
      if result.success && result.apiName.Some? {
        cts.Cancel();
        out := RaceOutcome(result.apiName, observed, cts.cancelled);
        return;
      }
      pending := RemoveAt(pending, j);
    }
    forall k | 0 <= k < |apis| ensures Fails(apis[k].fetch) {
      assert k !in pending;
    }
    out := RaceOutcome(None, observed, cts.cancelled);
  }
}
