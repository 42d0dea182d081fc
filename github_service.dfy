/** GitHubService.DownloadWebPageAsync: fetch a page and translate whatever
    goes wrong into the exception the caller sees. The HTTP exchange itself
    is an input: what the client and the server did for this request. */
module GitHubService {
  import opened Wrappers
  import opened Text

  /** The exception classes the translation tells apart. TaskCanceledException
      derives from OperationCanceledException; HttpRequestException may carry
      the response status code. */
  datatype ExceptionKind =
    | TaskCanceled
    | OperationCanceled
    | HttpRequest(statusCode: Option<int>)
    | OtherException

  datatype Exception = Exception(kind: ExceptionKind, message: string, inner: Option<Exception>)

  /** `catch (OperationCanceledException)` also catches the derived TaskCanceledException. */
  predicate IsOperationCanceled(e: Exception) {
    e.kind.TaskCanceled? || e.kind.OperationCanceled?
  }

  /** What the HTTP layer did for one request: GetAsync threw, or a response
      arrived whose body could then be read or not. */
  datatype HttpExchange =
    | SendFailed(error: Exception)
    | Responded(status: int, reasonPhrase: string, content: Result<string, Exception>)

  /** HttpResponseMessage.IsSuccessStatusCode. */
  predicate IsSuccessStatus(status: int) {
    200 <= status <= 299
  }

  const Forbidden := 403

  /** The exception EnsureSuccessStatusCode throws for a failure status: it carries the status code. */
  function StatusError(status: int, reasonPhrase: string): (e: Exception)
    ensures e.kind == HttpRequest(Some(status)) && e.inner == None
  {
    Exception(HttpRequest(Some(status)),
      "Response status code does not indicate success: " + IntToString(status) + " (" + reasonPhrase + ").",
      None)
  }

  /** The body, or the first exception of GetAsync, EnsureSuccessStatusCode and ReadAsStringAsync. */
  function Attempt(exchange: HttpExchange): (r: Result<string, Exception>)
    ensures r.Success? <==> exchange.Responded? && IsSuccessStatus(exchange.status) && exchange.content.Success?
    ensures r.Success? ==> r.value == exchange.content.value
    ensures exchange.Responded? && !IsSuccessStatus(exchange.status) ==>
      r == Failure(StatusError(exchange.status, exchange.reasonPhrase))
  {
    match exchange
    case SendFailed(e) => Failure(e)
    case Responded(status, reason, content) =>
      if !IsSuccessStatus(status) then Failure(StatusError(status, reason)) else content
  }

  function MessagePrefix(url: string): string {
    "Ошибка при загрузке " + url + ": "
  }

  const TimeoutText := "запрос был отменён или истек таймаут."
  const RateLimitMark := "rate limit"
  const RateLimitText := "доступ запрещён (" + RateLimitMark + ")."

  /** HttpRequestException(message, inner): its StatusCode is not set. */
  function Wrap(url: string, text: string, inner: Exception): Exception {
    Exception(HttpRequest(None), MessagePrefix(url) + text, Some(inner))
  }

  /** The catch clauses, tried in order; an exception thrown by one clause is not caught by the next. */
  function Translate(url: string, e: Exception): (r: Exception)
    ensures !r.kind.TaskCanceled?
    ensures r.kind.HttpRequest? || r.kind.OperationCanceled?
    ensures r.kind.OperationCanceled? <==> e.kind.OperationCanceled?
    ensures e.kind.OperationCanceled? ==> r == e
    ensures r.kind.HttpRequest? ==>
      && r.inner == Some(e) && r.kind.statusCode == None
      && |r.message| >= |MessagePrefix(url)| && r.message[..|MessagePrefix(url)|] == MessagePrefix(url)
    ensures e.kind.TaskCanceled? ==> r.message == MessagePrefix(url) + TimeoutText
    ensures e.kind == HttpRequest(Some(Forbidden)) ==> ContainsIgnoreCase(r.message, RateLimitMark)
    ensures !IsOperationCanceled(e) && e.kind != HttpRequest(Some(Forbidden)) ==> Contains(r.message, e.message)
  {
    if e.kind.TaskCanceled? then
      Wrap(url, TimeoutText, e)
    else if e.kind.HttpRequest? && e.kind.statusCode == Some(Forbidden) then
      ContainsMiddle(MessagePrefix(url) + "доступ запрещён (", RateLimitMark, ").");
      assert MessagePrefix(url) + RateLimitText == MessagePrefix(url) + "доступ запрещён (" + RateLimitMark + ").";
      Wrap(url, RateLimitText, e)
    else if e.kind.OperationCanceled? then
      e
    else
      ContainsMiddle(MessagePrefix(url), e.message, "");
      assert MessagePrefix(url) + e.message + "" == MessagePrefix(url) + e.message;
      Wrap(url, e.message, e)
  }

  /** What DownloadWebPageAsync completes with: the page, or the exception it throws. */
  datatype Download = Returned(body: string) | Raised(error: Exception)

  function DownloadWebPage(url: string, exchange: HttpExchange): (r: Download)
    ensures r.Returned? <==> Attempt(exchange).Success?
    ensures r.Returned? ==> exchange.Responded? && IsSuccessStatus(exchange.status)
                            && exchange.content == Success(r.body)
    ensures r.Raised? ==> r.error.kind.HttpRequest? || r.error.kind.OperationCanceled?
  {
    match Attempt(exchange)
    case Success(body) => Returned(body)
    case Failure(e) => Raised(Translate(url, e))
  }

  /** A 403 response never yields the page: it surfaces as an HttpRequestException that names the URL
      and says "rate limit", with the status error inside. */
  lemma ForbiddenIsRateLimit(url: string, reasonPhrase: string, content: Result<string, Exception>)
    ensures var r := DownloadWebPage(url, Responded(Forbidden, reasonPhrase, content));
      && r.Raised? && r.error.kind == HttpRequest(None)
      && ContainsIgnoreCase(r.error.message, RateLimitMark)
      && r.error.inner == Some(StatusError(Forbidden, reasonPhrase))
  {
  }

  /** A request cancelled or timed out inside the HTTP client surfaces as an HttpRequestException,
      not as an OperationCanceledException. */
  lemma CancelledRequestIsHttpError(url: string, e: Exception)
    requires e.kind.TaskCanceled?
    ensures var r := DownloadWebPage(url, SendFailed(e));
      && r.Raised? && r.error.kind == HttpRequest(None) && !IsOperationCanceled(r.error)
      && r.error.inner == Some(e)
  {
  }
}
