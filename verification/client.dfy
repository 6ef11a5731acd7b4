/** The tariff API client: a bounded retry loop over per-attempt outcomes with
    exponential backoff, the envelope check on success, the error text on failure, and the
    diagnostic helpers. The network, the timers and the log are outside the model: each
    attempt's outcome is given, and the waits are returned as a list of delays. */
module WbClient {
  import opened Wrappers
  import opened JsonValues
  import opened Strings

  /** What one attempt's `fetch` produced: a rejected promise (network error or timeout
      abort, given as the text `String(error)` yields), or a response with its status and
      body text. */
  datatype Outcome = TransportFailure(error: string) | HttpResponse(status: nat, bodyText: string)

  /** The validated envelope `{ response: { data } }`; `data` is `None` when the key is
      absent (the schema accepts any value for it, `undefined` included). */
  datatype TariffsResponse = TariffsResponse(data: Option<Json>)

  datatype FetchResult = Fetched(response: TariffsResponse) | Failed(message: string)

  /** What one attempt leads to inside the loop: the return of a validated envelope, the
      wait-and-continue taken for a retryable status before the last attempt (which does
      not touch `lastError`), or an error caught by the `catch` (recorded as `lastError`). */
  datatype AttemptResult = Succeeded(response: TariffsResponse) | Backoff | Caught(error: string)

  /** The result and the delays waited, in order, of one `fetchBoxTariffs` call, and the
      number of attempts made. */
  datatype Trace = Trace(result: FetchResult, delays: seq<nat>, attempts: nat)

  const DefaultRetries: nat := 3
  const BaseDelayMs: nat := 500
  const FailurePrefix: string := "Failed to fetch WB tariffs after retries: "
  const ShapeError: string := "Error: WB API returned unexpected payload shape"

  // ---------------------------------------------------------------------------
  // Pure helpers
  // ---------------------------------------------------------------------------

  /** `parseJsonSafely`: the parsed value, or the text itself when it is not JSON. */
  function ParseJsonSafely(env: Runtime, text: string): (v: Json)
    ensures env.parse(text).Some? ==> v == env.parse(text).value
    ensures env.parse(text).None? ==> v == JString(text)
  {
    match env.parse(text)
    case Some(v) => v
    case None => JString(text)
  }

  /** `compactJson`: strings as they are, any other value as its JSON text. */
  function CompactJson(env: Runtime, v: Json): (s: string)
    ensures v.JString? ==> s == v.s
    ensures !v.JString? ==> s == env.stringify(v)
  {
    if v.JString? then v.s else env.stringify(v)
  }

  /** A body that is not JSON is logged verbatim. */
  lemma CompactUnparsedBody(env: Runtime, text: string)
    requires env.parse(text).None?
    ensures CompactJson(env, ParseJsonSafely(env, text)) == text
  {
  }

  /** `describeToken`: the token's length and its number of `.`-separated segments. */
  function DescribeToken(token: string): (d: string)
    ensures d == "length=" + Decimal(|token|) + ", jwtSegments=" + Decimal(Count('.', token) + 1)
  {
    "length=" + Decimal(|token|) + ", jwtSegments=" + Decimal(|Split(token, '.')|)
  }

  /** The description reveals the length and the number of dots and nothing else: two
      tokens are described alike exactly when they agree on both. */
  lemma DescribeTokenReveals(a: string, b: string)
    ensures DescribeToken(a) == DescribeToken(b) <==> |a| == |b| && Count('.', a) == Count('.', b)
  {
    if DescribeToken(a) == DescribeToken(b) {
      DescriptionFields(Decimal(|a|), Decimal(Count('.', a) + 1), Decimal(|b|), Decimal(Count('.', b) + 1));
      DecimalInjective(|a|, |b|);
      DecimalInjective(Count('.', a) + 1, Count('.', b) + 1);
    }
  }

  /** The two numbers can be read back from a description. */
  lemma DescriptionFields(l1: string, s1: string, l2: string, s2: string)
    requires AllDigits(l1) && AllDigits(l2) && l1 != [] && l2 != []
    requires "length=" + l1 + ", jwtSegments=" + s1 == "length=" + l2 + ", jwtSegments=" + s2
    ensures l1 == l2 && s1 == s2
  {
    var p, q := "length=", ", jwtSegments=";
    assert p + l1 + q + s1 == p + (l1 + (q + s1));
    assert p + l2 + q + s2 == p + (l2 + (q + s2));
    CancelPrefix(p, l1 + (q + s1), l2 + (q + s2));
    DigitsBeforeSeparator(l1, q + s1, l2, q + s2);
    CancelPrefix(l1, q + s1, q + s2);
    CancelPrefix(q, s1, s2);
  }

  lemma CancelPrefix(p: string, x: string, y: string)
    requires p + x == p + y
    ensures x == y
  {
    assert x == (p + x)[|p|..];
  }

  /** Two digit strings each followed by a text starting with a non-digit cannot be
      told apart unless they are equal. */
  lemma DigitsBeforeSeparator(d1: string, r1: string, d2: string, r2: string)
    requires AllDigits(d1) && AllDigits(d2)
    requires r1 != [] && !IsDigit(r1[0]) && r2 != [] && !IsDigit(r2[0])
    requires d1 + r1 == d2 + r2
    ensures d1 == d2
  {
    var s := d1 + r1;
    assert !IsDigit(s[|d1|]);
    assert !IsDigit(s[|d2|]) by { assert s[|d2|] == (d2 + r2)[|d2|]; }
    assert forall i :: 0 <= i < |d2| ==> s[i] == d2[i];
    assert |d1| == |d2|;
    assert d1 == s[..|d1|];
    assert d2 == (d2 + r2)[..|d2|];
  }

  /** `response.ok`. */
  predicate IsOk(status: nat) {
    200 <= status <= 299
  }

  /** The statuses retried without going through the `catch`. */
  predicate IsRetryableStatus(status: nat) {
    status == 429 || status >= 500
  }

  /** A field the error schema declares optional of type `kind`: absent, or of that type. */
  predicate OptionalString(fields: Fields, key: string) {
    Lookup(fields, key).None? || Lookup(fields, key).value.JString?
  }

  /** The error-body schema: an object whose descriptive fields are absent or strings and
      whose `status` is absent or a number. */
  predicate MatchesErrorSchema(body: Json) {
    && body.JObject?
    && OptionalString(body.fields, "title")
    && OptionalString(body.fields, "detail")
    && (Lookup(body.fields, "status").None? || Lookup(body.fields, "status").value.JNumber?)
    && OptionalString(body.fields, "statusText")
    && OptionalString(body.fields, "code")
    && OptionalString(body.fields, "requestId")
    && OptionalString(body.fields, "origin")
    && OptionalString(body.fields, "timestamp")
  }

  /** The string a schema-valid body holds under `key`, if present. */
  function StringField(fields: Fields, key: string): Option<string> {
    match Lookup(fields, key)
    case Some(JString(s)) => Some(s)
    case _ => None
  }

  /** The `detailMessage` of a failed response. */
  function DetailMessage(body: Json, status: nat): (m: string)
    ensures MatchesErrorSchema(body) && StringField(body.fields, "detail").Some?
            ==> m == StringField(body.fields, "detail").value
    ensures MatchesErrorSchema(body) && StringField(body.fields, "detail").None? && StringField(body.fields, "title").Some?
            ==> m == StringField(body.fields, "title").value
    ensures MatchesErrorSchema(body) && StringField(body.fields, "detail").None? && StringField(body.fields, "title").None?
            ==> m == "WB API error"
    ensures !MatchesErrorSchema(body) ==> m == "WB API error with status " + Decimal(status)
  {
    if MatchesErrorSchema(body) then
      StringField(body.fields, "detail").GetOr(StringField(body.fields, "title").GetOr("WB API error"))
    else "WB API error with status " + Decimal(status)
  }

  /** The response-envelope check: the body is an object whose `response` is an object;
      only its `data` is kept. */
  function CheckEnvelope(body: Json): (r: Option<TariffsResponse>)
    ensures r.Some? <==> body.JObject? && Lookup(body.fields, "response").Some?
                         && Lookup(body.fields, "response").value.JObject?
    ensures r.Some? ==> r.value.data == Lookup(Lookup(body.fields, "response").value.fields, "data")
  {
    if body.JObject? then
      match Lookup(body.fields, "response")
      case Some(JObject(inner)) => Some(TariffsResponse(Lookup(inner, "data")))
      case _ => None
    else None
  }

  /** `String(error)` of the `Error` thrown for a failed status. */
  function StatusError(body: Json, status: nat): string {
    "Error: " + Decimal(status) + ": " + DetailMessage(body, status)
  }

  /** One attempt, `attempt` of `0..retries`, as the body of the loop treats it. */
  function AttemptOutcome(env: Runtime, outcome: Outcome, attempt: nat, retries: nat): AttemptResult {
    match outcome
    case TransportFailure(e) => Caught(e)
    case HttpResponse(status, text) =>
      var body := ParseJsonSafely(env, text);
      if !IsOk(status) then
        if IsRetryableStatus(status) && attempt < retries then Backoff
        else Caught(StatusError(body, status))
      else
        match CheckEnvelope(body)
        case Some(response) => Succeeded(response)
        case None => Caught(ShapeError)
  }

  /** `2^k`. */
  function Pow2(k: nat): nat {
    if k == 0 then 1 else 2 * Pow2(k - 1)
  }

  /** The wait after failed attempt `k`. */
  function Delay(k: nat): nat {
    BaseDelayMs * Pow2(k)
  }

  /** The loop from attempt `attempt` on, given what `lastError` holds on entry. */
  function RunFrom(env: Runtime, outcomes: seq<Outcome>, retries: nat, attempt: nat, lastError: Option<string>): (t: Trace)
    requires attempt <= retries + 1 <= |outcomes|
    ensures t.attempts <= retries + 1 - attempt
    decreases retries + 1 - attempt
  {
    if attempt > retries then
      Trace(Failed(FailurePrefix + lastError.GetOr("undefined")), [], 0)
    else
      match AttemptOutcome(env, outcomes[attempt], attempt, retries)
      case Succeeded(response) => Trace(Fetched(response), [], 1)
      case Backoff =>
        var rest := RunFrom(env, outcomes, retries, attempt + 1, lastError);
        Trace(rest.result, [Delay(attempt)] + rest.delays, rest.attempts + 1)
      case Caught(e) =>
        var rest := RunFrom(env, outcomes, retries, attempt + 1, Some(e));
        Trace(rest.result, (if attempt < retries then [Delay(attempt)] else []) + rest.delays, rest.attempts + 1)
  }

  /** A whole call with `retries` retries. */
  function Run(env: Runtime, outcomes: seq<Outcome>, retries: nat): Trace
    requires retries + 1 <= |outcomes|
  {
    RunFrom(env, outcomes, retries, 0, None)
  }

  // ---------------------------------------------------------------------------
  // The loop
  // ---------------------------------------------------------------------------

  /** The `try` block of one attempt: the outcome is a rejection, or a response whose
      body is parsed and checked; a retryable status before the last attempt takes the
      wait-and-continue path, everything else that is not a valid envelope throws.
      So an attempt backs off exactly on a retryable failed status before the last attempt,
      succeeds exactly on an ok status whose body passes the envelope check, and passes a
      transport failure on as it is. */
  method TryAttempt(env: Runtime, outcome: Outcome, attempt: nat, retries: nat) returns (r: AttemptResult)
    ensures r.Backoff? <==> (outcome.HttpResponse? && !IsOk(outcome.status)
                             && IsRetryableStatus(outcome.status) && attempt < retries)
    ensures r.Succeeded? <==> (outcome.HttpResponse? && IsOk(outcome.status)
                               && CheckEnvelope(ParseJsonSafely(env, outcome.bodyText)).Some?)
    ensures r.Succeeded? ==> r.response == CheckEnvelope(ParseJsonSafely(env, outcome.bodyText)).value
    ensures outcome.TransportFailure? ==> r == Caught(outcome.error)
    ensures r == AttemptOutcome(env, outcome, attempt, retries)
  {
    match outcome {
      case TransportFailure(e) =>
        return Caught(e);
      case HttpResponse(status, bodyText) =>
        var body := ParseJsonSafely(env, bodyText);
        if !IsOk(status) {
          if IsRetryableStatus(status) && attempt < retries {
            return Backoff;
          }
          return Caught(StatusError(body, status));
        }
        var parsed := CheckEnvelope(body);
        if parsed.None? {
          return Caught(ShapeError);
        }
        return Succeeded(parsed.value);
    }
  }

  /** The trace of a whole call, given the delays and attempts made before the rest `t`. */
  function After(delays: seq<nat>, attempts: nat, t: Trace): Trace {
    Trace(t.result, delays + t.delays, attempts + t.attempts)
  }

  /** One turn of the loop: what attempt `attempt` yields moves the loop state on without
      changing the trace of the whole call. */
  lemma RunFromStep(env: Runtime, outcomes: seq<Outcome>, retries: nat, attempt: nat, lastError: Option<string>,
                    a: AttemptResult, delays: seq<nat>, attempts: nat)
    requires attempt <= retries < |outcomes|
    requires a == AttemptOutcome(env, outcomes[attempt], attempt, retries)
    ensures a.Succeeded? ==>
      After(delays, attempts, RunFrom(env, outcomes, retries, attempt, lastError)) == Trace(Fetched(a.response), delays, attempts + 1)
    ensures a.Backoff? ==>
      After(delays, attempts, RunFrom(env, outcomes, retries, attempt, lastError))
      == After(delays + [Delay(attempt)], attempts + 1, RunFrom(env, outcomes, retries, attempt + 1, lastError))
    ensures a.Caught? && attempt < retries ==>
      After(delays, attempts, RunFrom(env, outcomes, retries, attempt, lastError))
      == After(delays + [Delay(attempt)], attempts + 1, RunFrom(env, outcomes, retries, attempt + 1, Some(a.error)))
    ensures a.Caught? && attempt == retries ==>
      After(delays, attempts, RunFrom(env, outcomes, retries, attempt, lastError))
      == After(delays, attempts + 1, RunFrom(env, outcomes, retries, attempt + 1, Some(a.error)))
  {
    var t := RunFrom(env, outcomes, retries, attempt, lastError);
    match a {
      case Succeeded(response) =>
        assert t == Trace(Fetched(response), [], 1);
        assert delays + [] == delays;
      case Backoff =>
        var rest := RunFrom(env, outcomes, retries, attempt + 1, lastError);
        assert t == Trace(rest.result, [Delay(attempt)] + rest.delays, rest.attempts + 1);
        assert delays + t.delays == (delays + [Delay(attempt)]) + rest.delays;
      case Caught(error) =>
        var rest := RunFrom(env, outcomes, retries, attempt + 1, Some(error));
        if attempt < retries {
          assert t == Trace(rest.result, [Delay(attempt)] + rest.delays, rest.attempts + 1);
          assert delays + t.delays == (delays + [Delay(attempt)]) + rest.delays;
        } else {
          assert t == Trace(rest.result, [] + rest.delays, rest.attempts + 1);
          assert [] + rest.delays == rest.delays;
        }
    }
  }

  /** Past the last attempt nothing is added to the trace. */
  lemma RunFromEnd(env: Runtime, outcomes: seq<Outcome>, retries: nat, lastError: Option<string>,
                   delays: seq<nat>, attempts: nat)
    requires retries + 1 <= |outcomes|
    ensures After(delays, attempts, RunFrom(env, outcomes, retries, retries + 1, lastError))
            == Trace(Failed(FailurePrefix + lastError.GetOr("undefined")), delays, attempts)
  {
    assert delays + [] == delays;
  }

  /** `fetchBoxTariffs`: `outcomes[k]` is what attempt `k` would see; `configuredRetries`
      is the optional configured retry count (3 when unset). */
  method FetchBoxTariffs(env: Runtime, outcomes: seq<Outcome>, configuredRetries: Option<nat>)
    returns (result: FetchResult, delays: seq<nat>, attempts: nat)
    requires configuredRetries.GetOr(DefaultRetries) + 1 <= |outcomes|
    ensures Trace(result, delays, attempts) == Run(env, outcomes, configuredRetries.GetOr(DefaultRetries))
    ensures 1 <= attempts <= configuredRetries.GetOr(DefaultRetries) + 1
  {
    var retries := configuredRetries.GetOr(DefaultRetries);
    var lastError: Option<string> := None;
    delays := [];
    attempts := 0;
    var attempt := 0;
    ghost var total := Run(env, outcomes, retries);
    assert total == After(delays, attempts, RunFrom(env, outcomes, retries, attempt, lastError)) by {
      assert [] + total.delays == total.delays;
    }
    while attempt <= retries
      invariant attempt <= retries + 1
      invariant attempts == attempt
      invariant total == After(delays, attempts, RunFrom(env, outcomes, retries, attempt, lastError))
      decreases retries + 1 - attempt
    {
      var step := TryAttempt(env, outcomes[attempt], attempt, retries);
      RunFromStep(env, outcomes, retries, attempt, lastError, step, delays, attempts);
      attempts := attempts + 1;
      match step {
        case Succeeded(response) =>
          return Fetched(response), delays, attempts;
        case Backoff =>
          delays := delays + [Delay(attempt)];
        case Caught(error) =>
          lastError := Some(error);
          if attempt < retries {
            delays := delays + [Delay(attempt)];
          }
      }
      attempt := attempt + 1;
    }
    RunFromEnd(env, outcomes, retries, lastError, delays, attempts);
    result := Failed(FailurePrefix + lastError.GetOr("undefined"));
  }

  // ---------------------------------------------------------------------------
  // Properties of the loop
  // ---------------------------------------------------------------------------

  /** Does attempt `k` return a validated envelope? */
  predicate SucceedsAt(env: Runtime, outcomes: seq<Outcome>, retries: nat, k: nat)
    requires k < |outcomes|
  {
    AttemptOutcome(env, outcomes[k], k, retries).Succeeded?
  }

  /** The first successful attempt wins: the call succeeds exactly when some attempt
      up to `retries` succeeds, returns that first success's envelope, makes exactly that
      many attempts, and waits the doubling delays 500, 1000, ... before it. */
  lemma {:induction false} RunFirstSuccess(env: Runtime, outcomes: seq<Outcome>, retries: nat, attempt: nat, lastError: Option<string>, k: nat)
    requires attempt <= k <= retries < |outcomes|
    requires SucceedsAt(env, outcomes, retries, k)
    requires forall j :: attempt <= j < k ==> !SucceedsAt(env, outcomes, retries, j)
    ensures var t := RunFrom(env, outcomes, retries, attempt, lastError);
      && t.result == Fetched(AttemptOutcome(env, outcomes[k], k, retries).response)
      && t.attempts == k + 1 - attempt
      && |t.delays| == k - attempt
      && forall i :: 0 <= i < |t.delays| ==> t.delays[i] == Delay(attempt + i)
    decreases k - attempt
  {
    if attempt < k {
      var a := AttemptOutcome(env, outcomes[attempt], attempt, retries);
      var next := if a.Caught? then Some(a.error) else lastError;
      assert !SucceedsAt(env, outcomes, retries, attempt);
      RunFirstSuccess(env, outcomes, retries, attempt + 1, next, k);
      var rest := RunFrom(env, outcomes, retries, attempt + 1, next);
      if a.Backoff? {
        assert RunFrom(env, outcomes, retries, attempt, lastError) == Trace(rest.result, [Delay(attempt)] + rest.delays, rest.attempts + 1);
      } else {
        assert a == Caught(a.error);
        assert RunFrom(env, outcomes, retries, attempt, lastError) == Trace(rest.result, [Delay(attempt)] + rest.delays, rest.attempts + 1);
      }
    }
  }

  /** When every attempt fails, all `retries + 1` attempts are made, the waits are the
      doubling delays after each attempt but the last, and the error is the fixed prefix
      followed by the last attempt's error (the last attempt never takes the backoff path,
      so its error always reaches `lastError`). */
  lemma {:induction false} RunAllFail(env: Runtime, outcomes: seq<Outcome>, retries: nat, attempt: nat, lastError: Option<string>)
    requires attempt <= retries < |outcomes|
    requires forall j :: attempt <= j <= retries ==> !SucceedsAt(env, outcomes, retries, j)
    ensures var t := RunFrom(env, outcomes, retries, attempt, lastError);
      && AttemptOutcome(env, outcomes[retries], retries, retries).Caught?
      && t.result == Failed(FailurePrefix + AttemptOutcome(env, outcomes[retries], retries, retries).error)
      && t.attempts == retries + 1 - attempt
      && |t.delays| == retries - attempt
      && forall i :: 0 <= i < |t.delays| ==> t.delays[i] == Delay(attempt + i)
    decreases retries - attempt
  {
    assert !SucceedsAt(env, outcomes, retries, retries);
    if attempt < retries {
      var a := AttemptOutcome(env, outcomes[attempt], attempt, retries);
      var next := if a.Caught? then Some(a.error) else lastError;
      assert !SucceedsAt(env, outcomes, retries, attempt);
      RunAllFail(env, outcomes, retries, attempt + 1, next);
      var rest := RunFrom(env, outcomes, retries, attempt + 1, next);
      if a.Backoff? {
        assert RunFrom(env, outcomes, retries, attempt, lastError) == Trace(rest.result, [Delay(attempt)] + rest.delays, rest.attempts + 1);
      } else {
        assert a == Caught(a.error);
        assert RunFrom(env, outcomes, retries, attempt, lastError) == Trace(rest.result, [Delay(attempt)] + rest.delays, rest.attempts + 1);
      }
    }
  }

  /** Every failure before the last attempt is retried, whatever its kind: a 400, or a
      2xx whose body fails the envelope check, is followed by the next attempt after the
      same wait as a 503. */
  lemma FailureBeforeLastRetried(env: Runtime, outcomes: seq<Outcome>, retries: nat, attempt: nat, lastError: Option<string>)
    requires attempt < retries < |outcomes|
    requires !SucceedsAt(env, outcomes, retries, attempt)
    ensures var t := RunFrom(env, outcomes, retries, attempt, lastError);
      && t.delays != [] && t.delays[0] == Delay(attempt)
      && t.attempts >= 2
  {
  }

  /** The scenario `[503, 503, 200]`: two waits, of 500 then 1000 ms, and the third
      response's envelope. */
  lemma RetryScenario(env: Runtime, retries: nat, b1: string, b2: string, b3: string, data: Json)
    requires retries >= 2
    requires env.parse(b3) == Some(JObject([("response", JObject([("data", data)]))]))
    ensures var t := Run(env, [HttpResponse(503, b1), HttpResponse(503, b2), HttpResponse(200, b3)]
                                + seq(retries - 2, _ => TransportFailure("")), retries);
      && t.result == Fetched(TariffsResponse(Some(data)))
      && t.delays == [500, 1000]
      && t.attempts == 3
  {
    var outcomes := [HttpResponse(503, b1), HttpResponse(503, b2), HttpResponse(200, b3)]
                    + seq(retries - 2, _ => TransportFailure(""));
    assert outcomes[0] == HttpResponse(503, b1) && outcomes[1] == HttpResponse(503, b2)
        && outcomes[2] == HttpResponse(200, b3);
    assert !SucceedsAt(env, outcomes, retries, 0) && !SucceedsAt(env, outcomes, retries, 1);
    assert SucceedsAt(env, outcomes, retries, 2);
    RunFirstSuccess(env, outcomes, retries, 0, None, 2);
    var t := Run(env, outcomes, retries);
    assert t.delays[0] == Delay(0) && t.delays[1] == Delay(1);
  }

  /** A 400 on the first of several attempts does not end the call: the client waits
      500 ms and tries again. */
  lemma BadRequestRetried(env: Runtime, outcomes: seq<Outcome>, retries: nat, body: string)
    requires 1 <= retries < |outcomes| && outcomes[0] == HttpResponse(400, body)
    ensures var t := Run(env, outcomes, retries);
      && t.delays != [] && t.delays[0] == 500
      && t == (var rest := RunFrom(env, outcomes, retries, 1, Some(StatusError(ParseJsonSafely(env, body), 400)));
               Trace(rest.result, [500] + rest.delays, rest.attempts + 1))
  {
  }
}
