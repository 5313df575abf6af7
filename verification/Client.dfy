/** The command line's HTTP client: one request, retried a bounded number of times. */
module Client {
  import opened Results

  datatype ApiError =
    | NetworkError(message: string)
    | HttpError(code: nat, body: string)
    | NotFound(message: string)
    | Unauthorized
    | TokenExpired
    | Timeout(code: nat)
    | ServerError(code: nat, body: string)

  /** A failure below HTTP: a timeout, with the status if there was one, or anything else. */
  datatype Transport = TimedOut(status: Option<nat>) | Broken(message: string)

  /** What became of one request: never answered, or answered with a body that may fail to arrive. */
  datatype Reply = Unanswered(failure: Transport) | Answered(status: nat, body: Result<string, Transport>)

  type Answer = Result<string, ApiError>

  const RETRY_DELAY_MS := 1000
  const MAX_RETRIES: nat := 3
  const NO_ATTEMPTS := NetworkError("No attempts made")

  function FromTransport(failure: Transport): ApiError {
    match failure
    case TimedOut(status) => Timeout(if status.Some? then status.value else 408)
    case Broken(message) => NetworkError(message)
  }

  function HandleResponse(status: nat, body: Result<string, Transport>): Answer {
    if 200 <= status < 300 then
      match body
      case Ok(text) => Ok(text)
      case Err(failure) => Err(FromTransport(failure))
    else if status == 404 then Err(NotFound("Resource not found"))
    else if status == 401 then Err(TokenExpired)
    else if status == 403 then Err(Unauthorized)
    else if status == 504 || status == 408 then Err(Timeout(status))
    else
      var text := if body.Ok? then body.value else "";
      Err(if 500 <= status < 600 then ServerError(status, text) else HttpError(status, text))
  }

  function Request(reply: Reply): Answer {
    match reply
    case Unanswered(failure) => Err(FromTransport(failure))
    case Answered(status, body) => HandleResponse(status, body)
  }

  // ---------------------------------------------------------------------------------------------
  // What the retry loop is for.

  predicate Retriable(answer: Answer) {
    answer.Err? && (answer.error.Timeout? || answer.error.ServerError? || answer.error.NetworkError?)
  }

  predicate Expired(answer: Answer) {
    answer == Err(TokenExpired)
  }

  predicate ExpiredBefore(answers: seq<Answer>, k: nat)
    requires k <= |answers|
  {
    exists j :: 0 <= j < k && Expired(answers[j])
  }

  /** Answer `k` of at most `n` leads to another attempt, if there is one left. */
  predicate Passed(answers: seq<Answer>, n: nat, canRefresh: bool, k: nat)
    requires k < |answers|
  {
    || (Retriable(answers[k]) && k + 1 < n)
    || (Expired(answers[k]) && canRefresh && !ExpiredBefore(answers, k))
  }

  /** What the caller sees when answer `k` is the last. */
  function Verdict(answer: Answer): Answer {
    if Expired(answer) then Err(Unauthorized) else answer
  }

  /** The latest answer that was worth a delay, or the placeholder. */
  function LatestError(answers: seq<Answer>): ApiError {
    if answers == [] then NO_ATTEMPTS
    else
      var last := answers[|answers| - 1];
      if Retriable(last) then last.error else LatestError(answers[..|answers| - 1])
  }

  /** The delays after the first `k` answers. */
  function Slept(answers: seq<Answer>, k: nat): nat
    requires k <= |answers|
  {
    if k == 0 then 0
    else Slept(answers, k - 1) + if Retriable(answers[k - 1]) then RETRY_DELAY_MS * k else 0
  }

  /** The run of the loop over `answers`: the number of calls, the answer and the milliseconds slept. */
  ghost predicate Outcome(
    answers: seq<Answer>, n: nat, canRefresh: bool, calls: nat, result: Answer, slept: nat)
    requires n <= |answers|
  {
    && calls <= n
    && (forall k :: 0 <= k < calls - 1 ==> Passed(answers, n, canRefresh, k))
    && (if calls > 0 && !Passed(answers, n, canRefresh, calls - 1) then
          result == Verdict(answers[calls - 1]) && slept == Slept(answers, calls - 1)
        else
          calls == n && result == Err(LatestError(answers[..n])) && slept == Slept(answers, n))
  }

  class ApiClient {
    var token: Option<string>
    const canAsk: bool

    constructor (token: Option<string>, hasCredentials: bool)
      ensures this.token == token && canAsk == hasCredentials
    {
      this.token, canAsk := token, hasCredentials;
    }

    method RefreshToken(granted: Result<string, string>) returns (result: Result<(), ApiError>)
      modifies this
      ensures result.Ok? <==> canAsk && granted.Ok?
      ensures result.Err? ==> result.error == Unauthorized
      ensures token == if canAsk && granted.Ok? then Some(granted.value) else old(token)
    {
      if !canAsk {
        return Err(Unauthorized);
      }
      match granted {
        case Ok(newToken) =>
          token := Some(newToken);
          return Ok(());
        case Err(_) =>
          return Err(Unauthorized);
      }
    }

    /** `answers[i]` is what attempt `i` would get, `granted` what a request for a new token would. */
    method ExecuteWithRetry(answers: seq<Answer>, maxRetries: nat, granted: Result<string, string>)
      returns (result: Answer, calls: nat, slept: nat, refreshes: nat)
      requires |answers| == maxRetries
      modifies this
      ensures Outcome(answers, maxRetries, canAsk && granted.Ok?, calls, result, slept)
      ensures refreshes <= 1
      ensures token == (
        if canAsk && granted.Ok? && ExpiredBefore(answers, calls) then Some(granted.value) else old(token))
    {
      ghost var canRefresh := canAsk && granted.Ok?;
      var lastError := NO_ATTEMPTS;
      var tokenRefreshed := false;
      calls, slept, refreshes := 0, 0, 0;
      assert answers[..0] == [];
      for attempt := 0 to maxRetries
        invariant calls == attempt
        invariant forall k :: 0 <= k < attempt ==> Passed(answers, maxRetries, canRefresh, k)
        invariant tokenRefreshed <==> ExpiredBefore(answers, attempt)
        invariant lastError == LatestError(answers[..attempt])
        invariant slept == Slept(answers, attempt)
        invariant refreshes == if tokenRefreshed then 1 else 0
        invariant tokenRefreshed ==> canAsk && granted.Ok?
        invariant token == if tokenRefreshed then Some(granted.value) else old(token)
      {
        calls := calls + 1;
        assert answers[..attempt + 1][..attempt] == answers[..attempt];
        match answers[attempt] {
          case Ok(text) =>
            return Ok(text), calls, slept, refreshes;
          case Err(TokenExpired) =>
            if !tokenRefreshed && canAsk {
              refreshes := refreshes + 1;
              var refreshed := RefreshToken(granted);
              if refreshed.Ok? {
                tokenRefreshed := true;
                continue;
              }
            }
            return Err(Unauthorized), calls, slept, refreshes;
          case Err(e) =>
            if (e.Timeout? || e.ServerError? || e.NetworkError?) && attempt < maxRetries - 1 {
              slept := slept + RETRY_DELAY_MS * (attempt + 1);
              lastError := e;
            } else {
              return Err(e), calls, slept, refreshes;
            }
        }
      }
      assert answers[..maxRetries] == answers;
      result := Err(lastError);
    }
  }

  /** What becomes of a request, by the status and the body that came back, or by what went wrong. */
  lemma ResponseClasses(status: nat, body: Result<string, Transport>)
    ensures var answer := Request(Answered(status, body));
      && (answer.Ok? <==> 200 <= status < 300 && body.Ok?)
      && (answer.Ok? ==> answer.value == body.value)
      && (Expired(answer) <==> status == 401)
      && (answer == Err(Unauthorized) <==> status == 403)
      && (answer == Err(NotFound("Resource not found")) <==> status == 404)
      && (status == 408 || status == 504 ==> answer == Err(Timeout(status)))
      && (500 <= status < 600 && status != 504
          ==> answer.Err? && answer.error.ServerError? && answer.error.code == status)
      && (Retriable(answer) <==> status == 408 || 500 <= status < 600 || (200 <= status < 300 && body.Err?))
      && (answer.Err? && answer.error.HttpError?
          <==> !(200 <= status < 300) && !(500 <= status < 600) && status !in {401, 403, 404, 408})
      && (answer.Err? && answer.error.HttpError? ==> answer.error.code == status)
      && (answer.Err? && answer.error.HttpError? ==> answer.error.body == if body.Ok? then body.value else "")
      && (answer.Err? && answer.error.ServerError? ==> answer.error.body == if body.Ok? then body.value else "")
  {
  }

  /** A request or a body that does not arrive is always worth another attempt. */
  lemma TransportFailures(failure: Transport, status: nat)
    requires 200 <= status < 300
    ensures Request(Unanswered(failure)) == Request(Answered(status, Err(failure)))
    ensures Retriable(Request(Unanswered(failure)))
    ensures failure == TimedOut(None) ==> Request(Unanswered(failure)) == Err(Timeout(408))
    ensures failure.TimedOut? && failure.status.Some?
        ==> Request(Unanswered(failure)) == Err(Timeout(failure.status.value))
    ensures failure.Broken? ==> Request(Unanswered(failure)) == Err(NetworkError(failure.message))
  {
  }

  // ---------------------------------------------------------------------------------------------
  // What the outcome promises.

  lemma NoLaterEnd(answers: seq<Answer>, n: nat, canRefresh: bool,
                   c: nat, r: Answer, s: nat, c': nat, r': Answer, s': nat)
    requires n <= |answers|
    requires Outcome(answers, n, canRefresh, c, r, s) && Outcome(answers, n, canRefresh, c', r', s')
    ensures c' <= c
  {
    if c > 0 && !Passed(answers, n, canRefresh, c - 1) {
      assert !(0 <= c - 1 < c' - 1);
    }
  }

  /** The outcome is determined by the answers. */
  lemma OutcomeIsUnique(answers: seq<Answer>, n: nat, canRefresh: bool,
                        c: nat, r: Answer, s: nat, c': nat, r': Answer, s': nat)
    requires n <= |answers|
    requires Outcome(answers, n, canRefresh, c, r, s) && Outcome(answers, n, canRefresh, c', r', s')
    ensures c == c' && r == r' && s == s'
  {
    NoLaterEnd(answers, n, canRefresh, c, r, s, c', r', s');
    NoLaterEnd(answers, n, canRefresh, c', r', s', c, r, s);
  }

  /** At most one answer `401` is passed over. */
  lemma OneRefresh(answers: seq<Answer>, n: nat, canRefresh: bool, j: nat, k: nat)
    requires j < k < |answers| && Passed(answers, n, canRefresh, j) && Passed(answers, n, canRefresh, k)
    ensures !(Expired(answers[j]) && Expired(answers[k]))
  {
  }

  /** Twice the sum of 1 to `k`. */
  function Pairs(k: nat): nat {
    k * (k + 1)
  }

  /** The delays are longest when every answer is worth one: a second more after each. */
  lemma {:induction false} SleepBound(answers: seq<Answer>, k: nat)
    requires k <= |answers|
    ensures 2 * Slept(answers, k) <= 1000 * Pairs(k)
    ensures 2 * Slept(answers, k) == 1000 * Pairs(k) <==> forall j :: 0 <= j < k ==> Retriable(answers[j])
  {
    if k > 0 {
      SleepBound(answers, k - 1);
      assert Pairs(k) == Pairs(k - 1) + 2 * k;
    }
  }

  lemma {:induction false} LatestErrorIsRetriable(answers: seq<Answer>)
    ensures Retriable(Err(LatestError(answers)))
    ensures (exists k :: 0 <= k < |answers| && Retriable(answers[k]))
        ==> exists k :: 0 <= k < |answers| && answers[k] == Err(LatestError(answers))
  {
    if answers != [] {
      var last := |answers| - 1;
      LatestErrorIsRetriable(answers[..last]);
      if Retriable(answers[last]) {
        assert answers[last] == Err(LatestError(answers));
      } else {
        forall k | 0 <= k < |answers| && Retriable(answers[k]) ensures k < last && answers[..last][k] == answers[k] {
        }
      }
    }
  }

  /**
   * The sleeps of a run add up to at most a second per pair of attempts, and to that exactly when
   * all attempts are made and every answer but the last is worth a delay.
   */
  lemma TotalSleepIsBounded(
    answers: seq<Answer>, n: nat, canRefresh: bool, calls: nat, result: Answer, slept: nat)
    requires n <= |answers| && Outcome(answers, n, canRefresh, calls, result, slept) && n > 0
    ensures 2 * slept <= 1000 * (n * (n - 1))
    ensures 2 * slept == 1000 * (n * (n - 1)) <==> forall j :: 0 <= j < n - 1 ==> Retriable(answers[j])
  {
    assert Pairs(n - 1) == n * (n - 1);
    SleepBound(answers, n - 1);
    if calls > 0 && !Passed(answers, n, canRefresh, calls - 1) {
      SleepBound(answers, calls - 1);
      Growing(calls - 1, n - 1);
      if calls < n {
        assert !Retriable(answers[calls - 1]);
      }
    } else {
      assert Passed(answers, n, canRefresh, n - 1);
      assert Slept(answers, n) == Slept(answers, n - 1);
    }
  }

  lemma Growing(a: nat, b: nat)
    requires a <= b
    ensures Pairs(a) <= Pairs(b)
    ensures Pairs(a) == Pairs(b) ==> a == b
  {
    assert Pairs(b) - Pairs(a) == (b - a) * (a + b + 1);
    assert a < b ==> (b - a) * (a + b + 1) > 0;
  }

  /** The answer is a passing failure, or the first to say that the token has expired. */
  predicate CallsForMore(answers: seq<Answer>, canRefresh: bool, j: nat)
    requires j < |answers|
  {
    match answers[j]
    case Ok(_) => false
    case Err(Timeout(_)) => true
    case Err(ServerError(_, _)) => true
    case Err(NetworkError(_)) => true
    case Err(TokenExpired) => canRefresh && Err(TokenExpired) !in answers[..j]
    case Err(_) => false
  }

  lemma MoreIsPassed(answers: seq<Answer>, n: nat, canRefresh: bool, j: nat)
    requires j + 1 < n <= |answers|
    ensures Passed(answers, n, canRefresh, j) <==> CallsForMore(answers, canRefresh, j)
  {
    if h :| 0 <= h < j && Expired(answers[h]) {
      assert answers[..j][h] == Err(TokenExpired);
    }
    if Err(TokenExpired) in answers[..j] {
      var h :| 0 <= h < j && answers[..j][h] == Err(TokenExpired);
      assert Expired(answers[h]);
    }
  }

  /** An attempt is made exactly when every answer before it calls for one more. */
  lemma CallsExactly(answers: seq<Answer>, n: nat, canRefresh: bool, calls: nat, result: Answer, slept: nat, k: nat)
    requires n <= |answers| && Outcome(answers, n, canRefresh, calls, result, slept) && k < n
    ensures k < calls <==> forall j :: 0 <= j < k ==> CallsForMore(answers, canRefresh, j)
  {
    forall j | 0 <= j < k ensures Passed(answers, n, canRefresh, j) <==> CallsForMore(answers, canRefresh, j) {
      MoreIsPassed(answers, n, canRefresh, j);
    }
    if k >= calls && calls > 0 {
      assert !Passed(answers, n, canRefresh, calls - 1);
    }
  }

  /** As the client is configured: three attempts at most, and three seconds of delays. */
  lemma ThreeAttempts(answers: seq<Answer>, canRefresh: bool, calls: nat, result: Answer, slept: nat)
    requires MAX_RETRIES <= |answers| && Outcome(answers, MAX_RETRIES, canRefresh, calls, result, slept)
    ensures calls <= 3 && slept <= 3000
    ensures (forall j :: 0 <= j < 3 ==> Retriable(answers[j])) ==> calls == 3 && slept == 3000 && result == answers[2]
  {
    TotalSleepIsBounded(answers, MAX_RETRIES, canRefresh, calls, result, slept);
    if forall j :: 0 <= j < 3 ==> Retriable(answers[j]) {
      CallsExactly(answers, MAX_RETRIES, canRefresh, calls, result, slept, 2);
    }
  }

  /** The caller never sees `TokenExpired`, and any error it sees is `Unauthorized` or one of the answers. */
  lemma ResultIsAnAnswer(
    answers: seq<Answer>, n: nat, canRefresh: bool, calls: nat, result: Answer, slept: nat)
    requires n <= |answers| && Outcome(answers, n, canRefresh, calls, result, slept) && n >= 2
    ensures result != Err(TokenExpired)
    ensures result == Err(Unauthorized) || exists k :: 0 <= k < calls && answers[k] == result
  {
    if calls > 0 && !Passed(answers, n, canRefresh, calls - 1) {
      if !Expired(answers[calls - 1]) {
        assert answers[calls - 1] == result;
      }
    } else {
      assert Passed(answers, n, canRefresh, n - 1) && Passed(answers, n, canRefresh, n - 2);
      assert Expired(answers[n - 1]) && Retriable(answers[n - 2]) by {
        OneRefresh(answers, n, canRefresh, n - 2, n - 1);
      }
      LatestErrorIsRetriable(answers[..n]);
      assert Retriable(answers[..n][n - 2]);
      var k :| 0 <= k < n && answers[..n][k] == Err(LatestError(answers[..n]));
      assert answers[k] == result;
    }
  }

  /** With a single attempt a refreshed token is never used: the caller sees the placeholder. */
  lemma OneAttemptIsNotEnough(answers: seq<Answer>, canRefresh: bool, calls: nat, result: Answer, slept: nat)
    requires |answers| == 1 && Outcome(answers, 1, canRefresh, calls, result, slept)
    requires Expired(answers[0])
    ensures result == if canRefresh then Err(NetworkError("No attempts made")) else Err(Unauthorized)
  {
    assert answers[..1] == answers && answers[..0] == [];
    assert LatestError(answers) == NO_ATTEMPTS;
    assert !ExpiredBefore(answers, 0);
    assert canRefresh <==> Passed(answers, 1, canRefresh, 0);
  }

  /** A success is returned exactly when an attempt succeeds and all before it are passed over. */
  lemma SuccessIsReported(
    answers: seq<Answer>, n: nat, canRefresh: bool, calls: nat, result: Answer, slept: nat, text: string)
    requires n <= |answers| && Outcome(answers, n, canRefresh, calls, result, slept)
    ensures result == Ok(text)
       <==> calls > 0 && answers[calls - 1] == Ok(text)
    ensures (exists k :: 0 <= k < n && answers[k].Ok? && forall j :: 0 <= j < k ==> Passed(answers, n, canRefresh, j))
       <==> result.Ok?
  {
    if k :| 0 <= k < n && answers[k].Ok? && forall j :: 0 <= j < k ==> Passed(answers, n, canRefresh, j) {
      assert !Passed(answers, n, canRefresh, k);
      assert calls - 1 >= k;
    }
    if result.Ok? {
      assert answers[calls - 1].Ok?;
    }
  }

  /** A missing resource is always `NotFound`: no run ends in `HttpError(404, _)`. */
  lemma MissingIsNeverHttpError(
    replies: seq<Reply>, n: nat, canRefresh: bool, calls: nat, result: Answer, slept: nat)
    requires n <= |replies| && n >= 2
    requires Outcome(Requests(replies), n, canRefresh, calls, result, slept)
    ensures result.Err? && result.error.HttpError? ==> result.error.code != 404
  {
    ResultIsAnAnswer(Requests(replies), n, canRefresh, calls, result, slept);
    if result != Err(Unauthorized) {
      var k :| 0 <= k < calls && Requests(replies)[k] == result;
      assert Requests(replies)[k] == Request(replies[k]);
    }
  }

  function Requests(replies: seq<Reply>): (answers: seq<Answer>)
    ensures |answers| == |replies|
  {
    seq(|replies|, i requires 0 <= i < |replies| => Request(replies[i]))
  }
}
