/**
 * The interceptor's test scenarios: tokens built as the tests build them, with an
 * expiry thirty minutes after or before the moment the token is made.
 */
module InterceptorScenarios {
  import opened Wrappers
  import opened JsValues
  import opened Http
  import opened Service
  import opened Interceptor
  import InterceptorProperties

  const TestHeader: Json := JObj(map["alg" := JStr("HS512"), "typ" := JStr("JWT")])

  function TestPayload(exp: int): Json {
    JObj(map[
      "sub" := JStr("swampfox"),
      "ref" := JStr("false"),
      "src" := JStr("DATABASE"),
      "auths" := JArr([JStr("Swampfox")]),
      "en" := JBool(true),
      "uisexp" := JBool(false),
      "exp" := JNum(exp),
      "user" := JStr("swampfox"),
      "timeout" := JNum(30)
    ])
  }

  /** `createJwtToken(exp)` */
  function TestToken(exp: int, stringify: Json -> string): Option<string> {
    CreateJwtToken(TestHeader, TestPayload(exp), "testsignature", stringify)
  }

  /** A test token decodes to a payload whose `exp` is the one it was made with. */
  lemma TestTokenExpiry(exp: int, parse: string -> Option<Json>, stringify: Json -> string)
    requires RoundTrips(parse, stringify, TestHeader) && RoundTrips(parse, stringify, TestPayload(exp))
    requires -MaxTimeValue <= exp * 1000 <= MaxTimeValue
    ensures TestToken(exp, stringify).Some?
    ensures DecodeJwtToken(TestToken(exp, stringify).value, parse).Ok?
    ensures ExpireTime(DecodeJwtToken(TestToken(exp, stringify).value, parse).value.payload) == Ok(Some(exp * 1000))
  {
    DecodeCreatedToken(TestHeader, TestPayload(exp), "testsignature", parse, stringify);
    assert TestPayload(exp).fields["exp"] == JNum(exp);
  }

  /** "makes a normal request": a token made at `createdMs` that expires thirty minutes later
      is, up to 1 799 seconds later, sent as it is with no refresh. */
  lemma MakesNormalRequest(request: HttpRequest, createdMs: int, nowMs: int,
                           parse: string -> Option<Json>, stringify: Json -> string,
                           refresh: Refresh, send: HttpRequest -> Transport)
    requires 0 <= createdMs <= nowMs <= createdMs + 1_799_000
    requires createdMs + 1_800_000 <= MaxTimeValue
    requires RoundTrips(parse, stringify, TestHeader)
    requires RoundTrips(parse, stringify, TestPayload(createdMs / 1000 + 30 * 60))
    ensures TestToken(createdMs / 1000 + 30 * 60, stringify).Some?
    ensures var token := TestToken(createdMs / 1000 + 30 * 60, stringify).value;
      var run := Execute(Decide(request, token, nowMs, parse), refresh, send);
      && run.calls == [SendCall(WithBearer(request, Some(token)))]
      && GetHeader(run.calls[0].request.headers, "Authorization") == Some("Bearer " + token)
  {
    var exp := createdMs / 1000 + 30 * 60;
    TestTokenExpiry(exp, parse, stringify);
    assert nowMs <= exp * 1000;
    var token := TestToken(exp, stringify).value;
    InterceptorProperties.ValidTokenAttached(request, token, nowMs, parse, refresh, send);
  }

  /** "handles refreshing the token before making the request": a token that expired thirty
      minutes before it was made is refreshed first, and the one request sent carries the
      refreshed token. */
  lemma RefreshesBeforeRequest(request: HttpRequest, createdMs: int, nowMs: int,
                               parse: string -> Option<Json>, stringify: Json -> string,
                               send: HttpRequest -> Transport)
    requires 0 <= createdMs <= nowMs
    requires createdMs + 1_800_000 <= MaxTimeValue
    requires RoundTrips(parse, stringify, TestHeader)
    requires RoundTrips(parse, stringify, TestPayload(createdMs / 1000 - 30 * 60))
    requires RoundTrips(parse, stringify, TestPayload(createdMs / 1000 + 30 * 60))
    ensures TestToken(createdMs / 1000 - 30 * 60, stringify).Some?
    ensures TestToken(createdMs / 1000 + 30 * 60, stringify).Some?
    ensures var expired := TestToken(createdMs / 1000 - 30 * 60, stringify).value;
      var valid := TestToken(createdMs / 1000 + 30 * 60, stringify).value;
      var run := Execute(Decide(request, expired, nowMs, parse), Emitted(Some(valid)), send);
      && run.calls == [RefreshCall, SendCall(WithBearer(request, Some(valid)))]
      && GetHeader(run.calls[1].request.headers, "Authorization") == Some("Bearer " + valid)
  {
    var exp := createdMs / 1000 - 30 * 60;
    TestTokenExpiry(exp, parse, stringify);
    TestTokenExpiry(createdMs / 1000 + 30 * 60, parse, stringify);
    assert exp * 1000 < nowMs;
    var expired := TestToken(exp, stringify).value;
    var valid := TestToken(createdMs / 1000 + 30 * 60, stringify).value;
    InterceptorProperties.ExpiredTokenRefreshedFirst(request, expired, nowMs, parse, valid, send);
  }

  /** "handles refreshing the token if 401 is returned": the test leaves the service's
      placeholder token in place, so `intercept` throws before any request is sent and the
      refresh is never reached. */
  method UnauthorizedScenario(request: HttpRequest, nowMs: int, parse: string -> Option<Json>,
                              send: HttpRequest -> Transport)
    returns (run: Run)
    ensures run == Run([], Errored(Thrown(Decode(InvalidCharacterError(0)))))
  {
    var service := new AuthService();
    var interceptor := new AuthInterceptor(service);
    run := interceptor.Intercept(request, nowMs, parse, send);
    DefaultTokenUndecodable(parse);
  }
}
