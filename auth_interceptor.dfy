/**
 * The HTTP interceptor that puts the JWT on outgoing requests.
 *
 * `Decide` is the synchronous part of `intercept`: it reads the token and picks
 * one of three plans. `Execute` runs a plan against the outcome of a refresh and
 * against the next handler, `send`, and records which of the two it called.
 * The clock (`new Date()`) is the parameter `nowMs`, in milliseconds.
 */
module Interceptor {
  import opened Wrappers
  import opened JsValues
  import opened Http
  import opened Service

  /** Largest magnitude of a valid Date time value, in milliseconds (100 000 000 days). */
  const MaxTimeValue: int := 8_640_000_000_000_000

  /** `new Date(ms)`: the time value, or `None` for an Invalid Date (NaN or out of range). */
  function TimeClip(ms: Option<int>): (r: Option<int>)
    ensures r.Some? <==> ms.Some? && -MaxTimeValue <= ms.value <= MaxTimeValue
    ensures r.Some? ==> r == ms
  {
    if ms.Some? && -MaxTimeValue <= ms.value <= MaxTimeValue then ms else None
  }

  /** What `intercept` itself throws: a decoding error, the TypeError of reading `exp` of a
      null payload, or the TypeError of converting an `exp` that has no primitive value. */
  datatype InterceptError = Decode(cause: DecodeError) | NullPayload | UnconvertibleExp

  /** `exp` is present and its conversion to a number throws. */
  predicate ExpThrows(payload: Json) {
    payload.JObj? && "exp" in payload.fields && Unconvertible(payload.fields["exp"])
  }

  /** `new Date(decodedJwt.exp * 1000)` for a decoded payload. */
  function ExpireTime(payload: Json): (r: Result<Option<int>, InterceptError>)
    ensures r == Err(NullPayload) <==> payload == JNull
    ensures r == Err(UnconvertibleExp) <==> ExpThrows(payload)
    ensures r.Err? ==> !r.error.Decode?
    ensures r.Ok? && r.value.Some? ==>
      && -MaxTimeValue <= r.value.value <= MaxTimeValue
      && payload.JObj? && "exp" in payload.fields
      && ToNumber(payload.fields["exp"]) == Ok(Some(r.value.value / 1000))
      && r.value.value % 1000 == 0
  {
    match Property(payload, "exp")
    case Err(_) => Err(NullPayload)
    case Ok(None) => Ok(None)
    case Ok(Some(exp)) =>
      match ToNumber(exp)
      case Err(_) => Err(UnconvertibleExp)
      case Ok(seconds) => Ok(TimeClip(if seconds.Some? then Some(seconds.value * 1000) else None))
  }

  /** `jwtExpireTime < now`; an Invalid Date compares false. */
  predicate IsExpired(expireTime: Option<int>, nowMs: int) {
    expireTime.Some? && expireTime.value < nowMs
  }

  /** The Authorization value for a token; a `null` token renders as "null". */
  function Bearer(token: Option<string>): string {
    "Bearer " + (if token.Some? then token.value else "null")
  }

  /** `request.clone({ setHeaders: { Authorization: `Bearer ${token}` } })` */
  function WithBearer(request: HttpRequest, token: Option<string>): HttpRequest {
    CloneSetHeader(request, "Authorization", Bearer(token))
  }

  datatype Plan =
    | Forward(request: HttpRequest)          // next.handle(returnRequest), errors normalised
    | RefreshThenForward(base: HttpRequest)  // refreshJwtToken(), then next.handle(base with the new token)
    | Raise(error: InterceptError)           // intercept throws before anything is sent

  /** The decision `intercept` makes for `request` when the service holds `jwt`. */
  function Decide(request: HttpRequest, jwt: string, nowMs: int, parse: string -> Option<Json>): (p: Plan)
    ensures jwt == "" ==> p == Forward(request)
    ensures p.Forward? && jwt != "" ==> p.request == WithBearer(request, Some(jwt))
    ensures p.RefreshThenForward? ==> p.base == request && jwt != ""
    ensures p.Raise? <==> jwt != "" && (DecodeJwtToken(jwt, parse).Err?
                                       || DecodeJwtToken(jwt, parse).value.payload == JNull
                                       || ExpThrows(DecodeJwtToken(jwt, parse).value.payload))
  {
    if jwt == "" then Forward(request)
    else
      match DecodeJwtToken(jwt, parse)
      case Err(e) => Raise(Decode(e))
      case Ok(decoded) =>
        match ExpireTime(decoded.payload)
        case Err(e) => Raise(e)
        case Ok(expireTime) =>
          if IsExpired(expireTime, nowMs) then RefreshThenForward(request)
          else Forward(WithBearer(request, Some(jwt)))
  }

  /** What the refresh observable delivers: one token (possibly null), or an error. */
  datatype Refresh = Emitted(newJwt: Option<string>) | RefreshFailed(reason: string)

  /** A call the interceptor makes on a collaborator. */
  datatype Call = RefreshCall | SendCall(request: HttpRequest)

  datatype SurfacedError =
    | Normalised(message: string)            // new Error(err.error?.message || err.statusText)
    | Unwrapped(failure: HttpErrorResponse)  // an error of the refreshed request, as it came
    | RefreshError(reason: string)           // the refresh's own error, as it came
    | Thrown(error: InterceptError)
    | MessageTypeError                       // new Error(message) threw converting the message

  datatype Outcome = Delivered(response: HttpResponse) | Errored(error: SurfacedError)

  datatype Run = Run(calls: seq<Call>, outcome: Outcome)

  /** `err.error?.message`: `None` is `undefined`. */
  function ErrorBodyMessage(body: Option<Json>): Option<Json> {
    match body
    case None => None
    case Some(JNull) => None
    case Some(v) => Property(v, "message").value
  }

  /** The message of the Error that the catchError handler throws; `Err` is the TypeError
      that converting the message to a string raises instead. */
  function ErrorMessage(err: HttpErrorResponse): (r: Result<string, ()>)
    ensures var m := ErrorBodyMessage(err.error);
      r.Err? <==> m.Some? && Unconvertible(m.value)
  {
    var m := ErrorBodyMessage(err.error);
    if m.Some? && Truthy(m.value) then ToJsString(m.value) else Ok(err.statusText)
  }

  /** The observable `intercept` returns, run to completion. */
  function Execute(plan: Plan, refresh: Refresh, send: HttpRequest -> Transport): Run {
    match plan
    case Raise(e) => Run([], Errored(Thrown(e)))
    case Forward(request) =>
      var outcome := match send(request)
        case Received(response) => Delivered(response)
        case Failed(err) =>
          match ErrorMessage(err)
          case Ok(message) => Errored(Normalised(message))
          case Err(_) => Errored(MessageTypeError);
      Run([SendCall(request)], outcome)
    case RefreshThenForward(base) =>
      match refresh
      case RefreshFailed(reason) => Run([RefreshCall], Errored(RefreshError(reason)))
      case Emitted(newJwt) =>
        var request := WithBearer(base, newJwt);
        var outcome := match send(request)
          case Received(response) => Delivered(response)
          case Failed(err) => Errored(Unwrapped(err));
        Run([RefreshCall, SendCall(request)], outcome)
  }

  /** The interceptor, holding the service it reads the token from. */
  class AuthInterceptor {
    const authService: AuthService

    constructor (authService: AuthService)
      ensures this.authService == authService
    {
      this.authService := authService;
    }

    /** `intercept(request, next)` with the service's own refresh. The service is only read:
        a refreshed token is not stored back. */
    method Intercept(request: HttpRequest, nowMs: int, parse: string -> Option<Json>, send: HttpRequest -> Transport)
      returns (run: Run)
      ensures run == Execute(Decide(request, authService.jwtToken, nowMs, parse), Emitted(Some(authService.jwtToken)), send)
      ensures unchanged(authService)
    {
      var jwt := authService.jwtToken;
      var plan := Decide(request, jwt, nowMs, parse);
      var refresh := Emitted(Some(jwt));
      if plan.RefreshThenForward? {
        var newJwt := authService.RefreshJwtToken();
        refresh := Emitted(Some(newJwt));
      }
      run := Execute(plan, refresh, send);
    }
  }
}
