/** What `intercept` guarantees, stated over every request, token, clock and collaborator result. */
module InterceptorProperties {
  import opened Wrappers
  import opened JsValues
  import opened Http
  import opened Service
  import opened Interceptor

  // ----- no token -----

  /** With no token (the empty string is falsy) the original request is sent as it is,
      and the refresh is not called. */
  lemma NoTokenSendsOriginal(request: HttpRequest, nowMs: int, parse: string -> Option<Json>,
                             refresh: Refresh, send: HttpRequest -> Transport)
    ensures Execute(Decide(request, "", nowMs, parse), refresh, send).calls == [SendCall(request)]
  {
  }

  // ----- expiry -----

  /** For a numeric `exp` whose milliseconds are a valid time, the token counts as expired
      exactly when `exp * 1000 < now`, and the plan follows. */
  lemma DecisionFollowsExpiry(request: HttpRequest, jwt: string, nowMs: int, parse: string -> Option<Json>,
                              header: Json, fields: map<string, Json>, exp: int)
    requires jwt != ""
    requires DecodeJwtToken(jwt, parse) == Ok(DecodedJwt(header, JObj(fields)))
    requires "exp" in fields && fields["exp"] == JNum(exp)
    requires -MaxTimeValue <= exp * 1000 <= MaxTimeValue
    ensures exp * 1000 < nowMs ==> Decide(request, jwt, nowMs, parse) == RefreshThenForward(request)
    ensures exp * 1000 >= nowMs ==> Decide(request, jwt, nowMs, parse) == Forward(WithBearer(request, Some(jwt)))
  {
    assert ExpireTime(JObj(fields)) == Ok(Some(exp * 1000));
  }

  /** The boundary: a token whose expiry equals `now` to the millisecond is still used. */
  lemma ExpiryAtNowIsValid(request: HttpRequest, jwt: string, parse: string -> Option<Json>,
                           header: Json, fields: map<string, Json>, exp: int)
    requires jwt != ""
    requires DecodeJwtToken(jwt, parse) == Ok(DecodedJwt(header, JObj(fields)))
    requires "exp" in fields && fields["exp"] == JNum(exp)
    requires -MaxTimeValue <= exp * 1000 <= MaxTimeValue
    ensures Decide(request, jwt, exp * 1000, parse) == Forward(WithBearer(request, Some(jwt)))
  {
    DecisionFollowsExpiry(request, jwt, exp * 1000, parse, header, fields, exp);
  }

  /** An `exp` that is missing, converts to NaN, or whose milliseconds are out of the Date range
      gives an Invalid Date, which never compares as expired: the token is used as it is. */
  lemma UnreadableExpiryNeverExpires(payload: Json, nowMs: int)
    requires payload != JNull
    requires !payload.JObj? || "exp" !in payload.fields
          || ToNumber(payload.fields["exp"]) == Ok(None)
          || (ToNumber(payload.fields["exp"]).Ok? && ToNumber(payload.fields["exp"]).value.Some?
              && (ToNumber(payload.fields["exp"]).value.value * 1000 > MaxTimeValue
                  || ToNumber(payload.fields["exp"]).value.value * 1000 < -MaxTimeValue))
    ensures ExpireTime(payload) == Ok(None)
    ensures !IsExpired(ExpireTime(payload).value, nowMs)
  {
  }

  /** An `exp` whose conversion to a number throws (an object with its own "toString" key, or an
      array holding one) makes `intercept` throw a TypeError: nothing is sent, no refresh. */
  lemma UnconvertibleExpSendsNothing(request: HttpRequest, jwt: string, nowMs: int, parse: string -> Option<Json>,
                                     refresh: Refresh, send: HttpRequest -> Transport,
                                     header: Json, fields: map<string, Json>, m: map<string, Json>)
    requires jwt != ""
    requires DecodeJwtToken(jwt, parse) == Ok(DecodedJwt(header, JObj(fields)))
    requires "exp" in fields && (fields["exp"] == JObj(m) || fields["exp"] == JArr([JObj(m)])) && "toString" in m
    ensures Decide(request, jwt, nowMs, parse) == Raise(UnconvertibleExp)
    ensures Execute(Decide(request, jwt, nowMs, parse), refresh, send) == Run([], Errored(Thrown(UnconvertibleExp)))
  {
    assert Unconvertible(JArr([JObj(m)])) by {
      assert [JObj(m)][0] == JObj(m);
    }
  }

  /** A `null` payload makes reading `exp` throw a TypeError: nothing is sent. */
  lemma NullPayloadSendsNothing(request: HttpRequest, jwt: string, nowMs: int, parse: string -> Option<Json>,
                                refresh: Refresh, send: HttpRequest -> Transport)
    requires jwt != ""
    requires DecodeJwtToken(jwt, parse).Ok? && DecodeJwtToken(jwt, parse).value.payload == JNull
    ensures Execute(Decide(request, jwt, nowMs, parse), refresh, send) == Run([], Errored(Thrown(NullPayload)))
  {
  }

  // ----- valid token -----

  /** A token that has not expired goes on the request as `Bearer <token>`, with one send and no refresh. */
  lemma ValidTokenAttached(request: HttpRequest, jwt: string, nowMs: int, parse: string -> Option<Json>,
                           refresh: Refresh, send: HttpRequest -> Transport)
    requires jwt != "" && DecodeJwtToken(jwt, parse).Ok?
    requires ExpireTime(DecodeJwtToken(jwt, parse).value.payload).Ok?
    requires !IsExpired(ExpireTime(DecodeJwtToken(jwt, parse).value.payload).value, nowMs)
    ensures var run := Execute(Decide(request, jwt, nowMs, parse), refresh, send);
      && run.calls == [SendCall(WithBearer(request, Some(jwt)))]
      && GetHeader(run.calls[0].request.headers, "Authorization") == Some("Bearer " + jwt)
  {
  }

  // ----- expired token -----

  /** An expired token makes the interceptor call the refresh once, first; when it emits a token
      the one request sent carries that token, and it carries the old one only if the refresh
      gave the old one back. */
  lemma ExpiredTokenRefreshedFirst(request: HttpRequest, jwt: string, nowMs: int, parse: string -> Option<Json>,
                                   newJwt: string, send: HttpRequest -> Transport)
    requires jwt != "" && DecodeJwtToken(jwt, parse).Ok?
    requires ExpireTime(DecodeJwtToken(jwt, parse).value.payload).Ok?
    requires IsExpired(ExpireTime(DecodeJwtToken(jwt, parse).value.payload).value, nowMs)
    ensures var run := Execute(Decide(request, jwt, nowMs, parse), Emitted(Some(newJwt)), send);
      && run.calls == [RefreshCall, SendCall(WithBearer(request, Some(newJwt)))]
      && GetHeader(run.calls[1].request.headers, "Authorization") == Some("Bearer " + newJwt)
      && (GetHeader(run.calls[1].request.headers, "Authorization") == Some("Bearer " + jwt) <==> newJwt == jwt)
  {
    var stale, renewed := "Bearer " + jwt, "Bearer " + newJwt;
    if stale == renewed {
      assert stale[7..] == jwt && renewed[7..] == newJwt;
    }
  }

  /** A failing refresh ends the request with the refresh's own error: nothing is sent. */
  lemma RefreshFailureNotNormalised(base: HttpRequest, reason: string, send: HttpRequest -> Transport)
    ensures Execute(RefreshThenForward(base), RefreshFailed(reason), send) == Run([RefreshCall], Errored(RefreshError(reason)))
  {
  }

  /** With the service's own refresh, which gives back the current token, an expired token is
      sent again unchanged. */
  lemma DefaultRefreshResendsStaleToken(request: HttpRequest, jwt: string, send: HttpRequest -> Transport)
    ensures var run := Execute(RefreshThenForward(request), Emitted(Some(jwt)), send);
      GetHeader(run.calls[1].request.headers, "Authorization") == Some("Bearer " + jwt)
  {
  }

  // ----- headers -----

  /** Attaching the token replaces every earlier Authorization value, whatever its spelling,
      and leaves method, url, body and the other headers as they were. */
  lemma BearerOverwritesAuthorization(request: HttpRequest, token: string)
    ensures var r := WithBearer(request, Some(token));
      && r.verb == request.verb && r.url == request.url && r.body == request.body
      && r.headers[Lower("Authorization")] == ["Bearer " + token]
      && (forall n :: Lower(n) == Lower("Authorization") ==> GetHeader(r.headers, n) == Some("Bearer " + token))
      && (forall n :: Lower(n) != Lower("Authorization") ==> GetHeader(r.headers, n) == GetHeader(request.headers, n))
      && (forall k :: k in request.headers && k != Lower("Authorization") ==> k in r.headers && r.headers[k] == request.headers[k])
  {
  }

  // ----- errors -----

  /** `err.error?.message`, read independently: only an object body can carry a message. */
  function MessageField(err: HttpErrorResponse): Option<Json> {
    if err.error.Some? && err.error.value.JObj? && "message" in err.error.value.fields
    then Some(err.error.value.fields["message"]) else None
  }

  /** The surfaced message is the body's non-empty message when there is one, and the
      status text otherwise. */
  lemma ErrorMessageChoice(err: HttpErrorResponse)
    ensures ErrorBodyMessage(err.error) == MessageField(err)
    ensures forall s :: MessageField(err) == Some(JStr(s)) && s != "" ==> ErrorMessage(err) == Ok(s)
    ensures MessageField(err).None? || !Truthy(MessageField(err).value) ==> ErrorMessage(err) == Ok(err.statusText)
    ensures ErrorMessage(err).Err? <==> MessageField(err).Some? && Unconvertible(MessageField(err).value)
  {
  }

  /** A body that is plain text has no `message`: a 401 answered with text surfaces its status text. */
  lemma TextBodySurfacesStatusText(status: int, statusText: string, body: string)
    ensures ErrorMessage(HttpErrorResponse(status, statusText, Some(JStr(body)))) == Ok(statusText)
  {
  }

  /** A failure of the forwarded request on the non-refresh path is normalised and not retried,
      401 included; a message that cannot be converted to a string surfaces as a TypeError instead. */
  lemma ForwardFailureNormalised(request: HttpRequest, refresh: Refresh, send: HttpRequest -> Transport)
    requires send(request).Failed?
    ensures var message := ErrorMessage(send(request).failure);
      Execute(Forward(request), refresh, send)
      == Run([SendCall(request)], Errored(if message.Ok? then Normalised(message.value) else MessageTypeError))
  {
  }

  /** A failure of the refreshed request is passed on as it came, not normalised. */
  lemma RefreshedFailureNotNormalised(base: HttpRequest, newJwt: Option<string>, send: HttpRequest -> Transport)
    requires send(WithBearer(base, newJwt)).Failed?
    ensures Execute(RefreshThenForward(base), Emitted(newJwt), send).outcome
         == Errored(Unwrapped(send(WithBearer(base, newJwt)).failure))
  {
  }

  /** Every run sends at most one request, calls the refresh at most once and before the send,
      and only the non-refresh path normalises errors. */
  lemma AtMostOneSendNoRetry(plan: Plan, refresh: Refresh, send: HttpRequest -> Transport)
    ensures var run := Execute(plan, refresh, send);
      && |run.calls| <= 2
      && (forall i, j :: 0 <= i < j < |run.calls| ==> run.calls[i] == RefreshCall && run.calls[j].SendCall?)
      && (run.outcome.Errored? && (run.outcome.error.Normalised? || run.outcome.error.MessageTypeError?) ==> plan.Forward?)
      && (RefreshCall in run.calls <==> plan.RefreshThenForward?)
  {
  }

  // ----- decoding failures -----

  /** A token that cannot be decoded makes `intercept` throw: nothing is sent, no refresh. */
  lemma UndecodableTokenSendsNothing(request: HttpRequest, jwt: string, nowMs: int, parse: string -> Option<Json>,
                                     refresh: Refresh, send: HttpRequest -> Transport)
    requires jwt != "" && DecodeJwtToken(jwt, parse).Err?
    ensures Execute(Decide(request, jwt, nowMs, parse), refresh, send)
         == Run([], Errored(Thrown(Decode(DecodeJwtToken(jwt, parse).error))))
  {
  }

  /** A token without a payload segment (no ".") makes `intercept` throw. */
  lemma MissingPayloadSendsNothing(request: HttpRequest, jwt: string, nowMs: int, parse: string -> Option<Json>,
                                   refresh: Refresh, send: HttpRequest -> Transport)
    requires jwt != "" && '.' !in jwt
    ensures Execute(Decide(request, jwt, nowMs, parse), refresh, send).calls == []
  {
    MissingPayloadFails(jwt, parse);
  }

  /** A fresh service holds "some-token", which does not decode: every request throws. */
  lemma FreshServiceTokenThrows(request: HttpRequest, nowMs: int, parse: string -> Option<Json>)
    ensures Decide(request, "some-token", nowMs, parse) == Raise(Decode(InvalidCharacterError(0)))
  {
    DefaultTokenUndecodable(parse);
  }
}
