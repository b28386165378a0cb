/// `extraer_datos`: up to `MAX_REINTENTOS` completion requests for one
/// document, each reply put through `validar_json`; the first accepted reply
/// is the result.
module Extraction {
  import opened Common
  import opened Json
  import opened Validator

  /** `MAX_REINTENTOS`. */
  const MaxReintentos: nat := 3

  /** What one call to the completion service gives back: the content of the
      first choice (which may be `None`), or the message of the exception the
      client raised and whether that exception is a `ValueError` (such as
      the `UnicodeEncodeError` of a header value that is not ASCII), which
      the `except ValueError` clause of line 251 catches. */
  datatype Response = Completion(content: Option<string>) | ApiError(message: string, valueError: bool)

  /** An exception other than `ValueError` met during one attempt: the
      client's own, the `AttributeError` of a `None` content, the
      `TypeError` of an unhashable request type, or one of another class
      raised by `json.loads`. */
  datatype Cause = ClientError(message: string) | ContentMissing | TipoUnhashable | LoaderError(message: string)

  /** A `ValueError` met during one attempt: the validator's, or the
      client's. */
  datatype ValueFailure = Validation(reason: Reason) | ClientValueError(message: string)

  /** Why one attempt failed: a `ValueError` (line 251), or another
      exception (line 259). */
  datatype AttemptError = Rejected(failure: ValueFailure) | Raised(cause: Cause)

  /** The `RuntimeError` raised when the attempts run out, carrying the last
      attempt's error: one message for a `ValueError` (line 254), another
      for any other exception (line 262). */
  datatype Fatal = ExtractionFailed(lastFailure: ValueFailure) | ApiFailed(lastCause: Cause)

  /** The user message of every request (line 240); the system prompt and the
      model are fixed too, so every attempt sends the same request. */
  function UserMessage(texto: string): string {
    "Extrae los datos del siguiente texto:\n\n" + texto
  }

  /** Attempt number `intento` for the document text `texto` (the body of the
      `try` at lines 234-249 and the `except` clause that catches its
      failure): `api` gives the service's answer to each attempt's request. */
  function Attempt(texto: string, intento: nat, api: (string, nat) -> Response, loads: string -> Result<Json, LoadError>)
    : Result<map<string, Json>, AttemptError>
  {
    match api(UserMessage(texto), intento)
    case ApiError(message, valueError) =>
      if valueError then Err(Rejected(ClientValueError(message))) else Err(Raised(ClientError(message)))
    case Completion(content) =>
      match ValidarJson(content, loads)
      case Ok(datos) => Ok(datos)
      case Err(Invalid(reason)) => Err(Rejected(Validation(reason)))
      case Err(NoneReply) => Err(Raised(ContentMissing))
      case Err(UnhashableTipo) => Err(Raised(TipoUnhashable))
      case Err(LoadRaised(message)) => Err(Raised(LoaderError(message)))
  }

  /** Lines 234-262, one attempt: only a reply with content that the validator
      accepts yields a record, and that record has every required field
      valid. The `except` clause is chosen by the exception's class: a client
      exception is a rejection exactly when it is a `ValueError`; a missing
      content, and an exception of `json.loads` that is not a `ValueError`,
      are reported as raised, never as rejections. */
  lemma AttemptOutcome(texto: string, intento: nat, api: (string, nat) -> Response, loads: string -> Result<Json, LoadError>)
    ensures var a := Attempt(texto, intento, api, loads);
      var reply := api(UserMessage(texto), intento);
      (a.Ok? ==> reply.Completion? && reply.content.Some? && IsRecord(a.value))
      && (reply.ApiError? && reply.valueError ==> a == Err(Rejected(ClientValueError(reply.message))))
      && (reply.ApiError? && !reply.valueError ==> a == Err(Raised(ClientError(reply.message))))
      && (a.Err? && a.error.Raised? && a.error.cause.ClientError? ==> reply.ApiError? && !reply.valueError)
      && (a.Err? && a.error.Rejected? && a.error.failure.ClientValueError? ==> reply.ApiError? && reply.valueError)
      && (reply == Completion(None) <==> a == Err(Raised(ContentMissing)))
      && (a.Err? && a.error.Rejected? && a.error.failure.Validation? ==> reply.Completion? && reply.content.Some?)
      && ((a.Err? && a.error.Raised? && a.error.cause.LoaderError?) <==>
          (reply.Completion? && reply.content.Some?
           && loads(StripFence(reply.content.value)).Err? && loads(StripFence(reply.content.value)).error.LoadException?))
  {
    var a := Attempt(texto, intento, api, loads);
    match api(UserMessage(texto), intento)
    case ApiError(message, valueError) =>
      assert a == if valueError then Err(Rejected(ClientValueError(message))) else Err(Raised(ClientError(message)));
    case Completion(content) =>
      var v := ValidarJson(content, loads);
      assert v == Err(NoneReply) <==> content.None?;
      assert v.Ok? ==> a == Ok(v.value) && IsRecord(v.value);
      assert v.Err? ==> a.Err? && !(a.error.Raised? && a.error.cause.ClientError?);
      assert v.Err? ==> a.Err? && !(a.error.Rejected? && a.error.failure.ClientValueError?);
      if content.Some? {
        var parsed := loads(StripFence(content.value));
        assert v == ValidarDatos(parsed);
        assert (v.Err? && v.error.LoadRaised?) <==> (parsed.Err? && parsed.error.LoadException?);
      }
  }

  /** The `RuntimeError` for a last attempt that failed with `e`. */
  function Exhausted(e: AttemptError): Fatal {
    match e
    case Rejected(failure) => ExtractionFailed(failure)
    case Raised(cause) => ApiFailed(cause)
  }

  /** The outcome of every attempt the loop may make, in order: entry `i`
      is attempt number `i + 1`. */
  function Attempts(texto: string, api: (string, nat) -> Response, loads: string -> Result<Json, LoadError>)
    : (attempts: seq<Result<map<string, Json>, AttemptError>>)
    ensures |attempts| == MaxReintentos
    ensures forall i :: 0 <= i < MaxReintentos ==> attempts[i] == Attempt(texto, i + 1, api, loads)
  {
    [Attempt(texto, 1, api, loads), Attempt(texto, 2, api, loads), Attempt(texto, 3, api, loads)]
  }

  /** The loop from the attempt at index `i` on, over the attempts' outcomes:
      its result, and the number of requests made by the time it ends. */
  function LoopFrom<T>(attempts: seq<Result<T, AttemptError>>, i: nat): (out: (Result<T, Fatal>, nat))
    requires |attempts| == MaxReintentos && i < MaxReintentos
    ensures i < out.1 <= MaxReintentos
    decreases MaxReintentos - i
  {
    match attempts[i]
    case Ok(datos) => (Ok(datos), i + 1)
    case Err(e) =>
      if i + 1 == MaxReintentos then (Err(Exhausted(e)), i + 1)
      else LoopFrom(attempts, i + 1)
  }

  /** `extraer_datos(cliente, texto)` as a value: the outcome and the number of
      requests made. */
  function Retry(texto: string, api: (string, nat) -> Response, loads: string -> Result<Json, LoadError>)
    : (out: (Result<map<string, Json>, Fatal>, nat))
  {
    LoopFrom(Attempts(texto, api, loads), 0)
  }

  /** Lines 231-267. Requests are made one at a time; the loop stops at the
      first accepted reply and raises after the last attempt. `calls` counts
      the requests. */
  method ExtraerDatos(texto: string, api: (string, nat) -> Response, loads: string -> Result<Json, LoadError>)
    returns (r: Result<map<string, Json>, Fatal>, ghost calls: nat)
    ensures r == Retry(texto, api, loads).0
    ensures calls == Retry(texto, api, loads).1
  {
    ghost var attempts := Attempts(texto, api, loads);
    calls := 0;
    for intento := 1 to MaxReintentos + 1
      invariant intento <= MaxReintentos
      invariant calls == intento - 1
      invariant LoopFrom(attempts, intento - 1) == Retry(texto, api, loads)
    {
      var outcome := Attempt(texto, intento, api, loads);
      calls := calls + 1;
      assert outcome == attempts[intento - 1];
      match outcome
      case Ok(datos) =>
        return Ok(datos), calls;
      case Err(e) =>
        if intento == MaxReintentos {
          return Err(Exhausted(e)), calls;
        }
    }
    assert false;
  }

  // ---------------------------------------------------------------------------
  // Properties of the retry loop

  /** From index `i` on, the loop succeeds exactly when some remaining attempt
      is accepted; it then returns the first accepted record and makes no
      later request, and otherwise it makes every remaining request and
      reports the last one's error. */
  lemma {:induction false} LoopFromOutcome<T>(attempts: seq<Result<T, AttemptError>>, i: nat)
    requires |attempts| == MaxReintentos && i < MaxReintentos
    ensures var (r, calls) := LoopFrom(attempts, i);
      (r.Ok? <==> exists k :: i <= k < MaxReintentos && attempts[k].Ok?)
      && (r.Ok? ==>
            attempts[calls - 1] == Ok(r.value)
            && forall k :: i <= k < calls - 1 ==> attempts[k].Err?)
      && (r.Err? ==>
            calls == MaxReintentos
            && r.error == Exhausted(attempts[MaxReintentos - 1].error))
    decreases MaxReintentos - i
  {
    if attempts[i].Err? && i + 1 < MaxReintentos {
      LoopFromOutcome(attempts, i + 1);
    }
  }

  /** Lines 231-249: the first accepted reply is returned, after exactly as
      many requests as its attempt number; the record is one the validator
      accepts. */
  lemma FirstAcceptedWins(texto: string, api: (string, nat) -> Response, loads: string -> Result<Json, LoadError>, k: nat)
    requires 1 <= k <= MaxReintentos
    requires Attempt(texto, k, api, loads).Ok?
    requires forall j :: 1 <= j < k ==> Attempt(texto, j, api, loads).Err?
    ensures Retry(texto, api, loads) == (Ok(Attempt(texto, k, api, loads).value), k)
  {
    var attempts := Attempts(texto, api, loads);
    LoopFromOutcome(attempts, 0);
    assert attempts[k - 1] == Attempt(texto, k, api, loads);
    forall j | 0 <= j < k - 1
      ensures attempts[j].Err?
    {
      assert attempts[j] == Attempt(texto, j + 1, api, loads);
    }
  }

  /** Lines 251-264: when no attempt is accepted, whether the validator
      rejected the reply or another exception was raised, in any mix, exactly
      `MAX_REINTENTOS` requests are made and the `RuntimeError` carries the
      last attempt's error. */
  lemma Exhaustion(texto: string, api: (string, nat) -> Response, loads: string -> Result<Json, LoadError>)
    requires forall k :: 1 <= k <= MaxReintentos ==> Attempt(texto, k, api, loads).Err?
    ensures Retry(texto, api, loads) == (Err(Exhausted(Attempt(texto, MaxReintentos, api, loads).error)), MaxReintentos)
  {
    var attempts := Attempts(texto, api, loads);
    LoopFromOutcome(attempts, 0);
    assert forall k :: 0 <= k < MaxReintentos ==> attempts[k].Err?;
  }

  /** Never more than `MAX_REINTENTOS` requests, and at least one. */
  lemma RequestsBounded(texto: string, api: (string, nat) -> Response, loads: string -> Result<Json, LoadError>)
    ensures 1 <= Retry(texto, api, loads).1 <= MaxReintentos
  {
  }

  /** The extraction fails exactly when every attempt fails. */
  lemma FailsIffAllFail(texto: string, api: (string, nat) -> Response, loads: string -> Result<Json, LoadError>)
    ensures Retry(texto, api, loads).0.Err? <==> forall k :: 1 <= k <= MaxReintentos ==> Attempt(texto, k, api, loads).Err?
  {
    var attempts := Attempts(texto, api, loads);
    LoopFromOutcome(attempts, 0);
    if Retry(texto, api, loads).0.Err? {
      forall k | 1 <= k <= MaxReintentos
        ensures Attempt(texto, k, api, loads).Err?
      {
        assert attempts[k - 1].Err?;
      }
    } else {
      var j :| 0 <= j < MaxReintentos && attempts[j].Ok?;
      assert Attempt(texto, j + 1, api, loads).Ok?;
    }
  }

  /** Whatever `extraer_datos` returns passed `validar_json`: every required
      field is present and valid. */
  lemma RetryAcceptedIsRecord(texto: string, api: (string, nat) -> Response, loads: string -> Result<Json, LoadError>)
    ensures Retry(texto, api, loads).0.Ok? ==> IsRecord(Retry(texto, api, loads).0.value)
  {
    var attempts := Attempts(texto, api, loads);
    LoopFromOutcome(attempts, 0);
    var (r, calls) := Retry(texto, api, loads);
    if r.Ok? {
      assert attempts[calls - 1] == Attempt(texto, calls, api, loads);
      AttemptOutcome(texto, calls, api, loads);
    }
  }
}
