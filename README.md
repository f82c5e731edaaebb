# JWT interceptor model

A Dafny model of the client-side JWT guard of an Angular application: the HTTP
interceptor that puts `Authorization: Bearer <token>` on every outgoing request,
refreshes an expired token before sending, and rewrites transport errors into a
plain `Error`. The model also covers the token holder it reads (`AuthService`)
and the token decoder it calls (`decodeJwtToken`).

A token has the three-segment layout of section 3 of RFC 7519 (header, payload,
signature separated by "."). The decoder base64-decodes and JSON-parses the
first two segments only. It never checks the signature.

## Layout

| file | module | models |
|---|---|---|
| wrappers.dfy | `Wrappers` | `Option` (JavaScript `undefined`, NaN) and `Result` (a thrown exception) |
| js_values.dfy | `JsValues` | the values `JSON.parse` yields, with JavaScript truthiness, ToNumber and ToString as the interceptor uses them |
| js_strings.dfy | `JsStrings` | `String.prototype.split` with a one-character separator, and `join` |
| base64.dfy | `Base64` | `window.btoa` (the alphabet and padding of section 4 of RFC 4648) and `window.atob` (the HTML standard's forgiving-base64 decode) |
| http.dfy | `Http` | Angular's `HttpRequest`, `HttpHeaders`, `HttpResponse` and `HttpErrorResponse`, reduced to what the interceptor touches |
| auth_service.dfy | `Service` | `AuthService` as a class with the mutable `jwtToken` field; `decodeJwtToken`; the tests' `createJwtToken` |
| auth_interceptor.dfy | `Interceptor` | `intercept`: `Decide` picks the plan, `Execute` runs it, and the class `AuthInterceptor` wires both to the service |
| interceptor_properties.dfy | `InterceptorProperties` | what `intercept` guarantees for every input |
| interceptor_scenarios.dfy | `InterceptorScenarios` | the three test cases, with tokens built as the tests build them |

How the pieces fit:

- `Decide(request, jwt, nowMs, parse)` is the synchronous part of `intercept`. It returns one of three plans:
  - `Forward(request)`: there is no token, or the token is still valid;
  - `RefreshThenForward(request)`: the token has expired;
  - `Raise(error)`: decoding threw, the payload was `null`, or `exp` could not be converted to a number. Here `intercept` throws synchronously and returns no observable.
- `Execute(plan, refresh, send)` is, for a `Forward` or `RefreshThenForward` plan, the observable that `intercept` returns, run to completion. For a `Raise` plan it stands for the synchronous throw, with no calls made. It returns a `Run`:
  - the calls made, in order: `RefreshCall` and `SendCall(request)`;
  - the outcome: a response, or the error the caller sees.
- `refresh` is what the refresh delivers, and `send` is the next handler. Both are parameters, so a mocked refresh (as in the tests) and the service's own refresh are both covered.
- The clock `new Date()` is the parameter `nowMs`, in milliseconds.
- `JSON.parse` and `JSON.stringify` are the parameters `parse` and `stringify`. The round-trip lemmas require the round trip of the values they use (`Service.RoundTrips`).

Behaviour the model makes explicit:

- The empty string is "no token", because the test `if (jwt)` is a truthiness test.
- Expired means `exp * 1000 < now`: `exp` is read in seconds and compared, times 1000, with the current time in milliseconds. An expiry equal to `now` is still valid.
- `new Date(exp * 1000)` is an Invalid Date in three cases:
  - `exp` is missing;
  - `exp` converts to NaN;
  - `exp * 1000` lies beyond ±8.64e15 ms.

  An Invalid Date never compares as earlier than now, so such a token is used and never refreshed.
- A token that fails to decode makes `intercept` throw. Nothing is sent and the refresh is not called.
- A `null` payload makes reading `exp` throw a TypeError.
- `exp * 1000` throws a TypeError when `exp` is an object with its own "toString" key, or an array holding one. `JSON.parse` stores that key as data, which cannot be called, so the conversion finds no primitive value. `intercept` then throws and sends nothing.
- A token without "." makes `atob(parts[1])` read `undefined` as the text "undefined". That text is nine characters long, so `atob` throws.
- Any character outside the base64 alphabet throws, apart from ASCII whitespace (ignored anywhere) and one or two trailing padding "=" (an "=" elsewhere throws). This includes base64url's "-" and "_", so real JWTs (section 2 of RFC 7515) often fail to decode.
- A fresh `AuthService` holds `'some-token'`. That token does not decode, so with the shipped defaults every request throws before anything is sent.
- The service's own `refreshJwtToken` yields the current token. With an expired token, the "refreshed" request therefore carries the same expired token.
- Only the non-refresh path goes through `catchError`. Errors in the refresh branch reach the caller as they came. This covers a failing refresh and a failing refreshed request.
- The normalised message is `err.error?.message` when it is truthy, converted to a string. Otherwise it is `err.statusText`. A plain-text error body has no `message`, so a 401 answered with text surfaces its status text. A `message` that is an object with its own "toString" key, or an array holding one, makes `new Error(...)` throw a TypeError inside the handler, and the caller sees that TypeError (`MessageTypeError`).
- Nothing is retried. The 401 refresh-and-retry branch is commented out in src/app/auth.interceptor.ts:68-82, and the model follows the code.
- The interceptor only reads `authService.jwtToken`. A refreshed token is not stored back.
- The test "handles refreshing the token if 401 is returned" (src/app/auth.interceptor.spec.ts:121-159) expects a retry. It also never replaces the placeholder token, so in the code `intercept` throws before any request is sent (`InterceptorScenarios.UnauthorizedScenario`).

## Model

| member | source | states |
|---|---|---|
| `JsValues.Property` | src/app/auth.interceptor.ts:38-40 | reading `exp` throws exactly when the payload is `null`; an object that has the key yields its value; every other value reads as `undefined` |
| `JsValues.IntToDecimalRoundTrip` | src/app/auth.interceptor.ts:40 | `StringToNumber` (the string case of `exp * 1000`) reads the decimal rendering of every integer back as that integer |
| `JsValues.ToJsString` | src/app/auth.interceptor.ts:86 | converting the message to a string throws exactly on an object with its own "toString" key or an array holding one at any depth; a string is itself and a number its decimal rendering |
| `JsValues.ToNumber` | src/app/auth.interceptor.ts:40 | converting `exp` to a number throws exactly on an object with its own "toString" key or an array holding one at any depth |
| `JsValues.ToNumberCoercions` | src/app/auth.interceptor.ts:40 | `exp * 1000` coerces a numeric string and a one-number array to that number, an empty array to 0, an object without its own "toString" key to NaN, and throws on an object with one or an array holding one |
| `JsStrings.Split` | src/app/auth.service.ts:21 | `split('.')` yields at least one piece and no piece contains "." |
| `JsStrings.SplitPrefix` | src/app/auth.service.ts:21 | a "."-free prefix followed by "." is split off as the first piece |
| `JsStrings.JoinSplit` | src/app/auth.service.ts:21 | joining the pieces with "." gives back the token |
| `JsStrings.SplitJoin` | src/app/auth.service.ts:21 | splitting "."-joined, "."-free pieces gives back the pieces |
| `Base64.SextetOf` | src/app/auth.service.ts:22-23 | each alphabet character stands for a value below 64 |
| `Base64.CharOf` | src/app/auth.interceptor.spec.ts:182-183 | the alphabet character of a 6-bit value decodes back to that value |
| `Base64.EncodeGroups` | src/app/auth.interceptor.spec.ts:182-183 | 3 bytes become 4 alphabet characters, a final 1 or 2 bytes become 2 or 3 |
| `Base64.DecodeGroups` | src/app/auth.service.ts:22-23 | 4 characters become 3 bytes, a final 2 or 3 become 1 or 2; the result is a binary string |
| `Base64.Btoa` | src/app/auth.interceptor.spec.ts:182-183 | `btoa` succeeds exactly on strings of code units below 256, and its output length is 4 times the number of 3-byte groups, rounded up |
| `Base64.RemoveWhitespace` | src/app/auth.service.ts:22-23 | the text `atob` goes on to decode contains no ASCII whitespace |
| `Base64.RemoveWhitespaceAppend` | src/app/auth.service.ts:22-23 | removing whitespace from two joined texts removes it from each, in order |
| `Base64.AtobIgnoresWhitespace` | src/app/auth.service.ts:22-23 | inserting an ASCII whitespace character anywhere does not change what `atob` returns or whether it throws |
| `Base64.Atob` | src/app/auth.service.ts:22-23 | whatever `atob` returns is a binary string |
| `Base64.DecodeEncodeGroups` | src/app/auth.interceptor.spec.ts:182-183 | decoding the unpadded encoding of bytes gives back the bytes |
| `Base64.AtobBtoa` | src/app/auth.interceptor.spec.ts:182-183 | `atob(btoa(s)) == s` for every string `btoa` accepts |
| `Base64.BtoaHasNoDot` | src/app/auth.interceptor.spec.ts:186 | `btoa` output contains no ".", so each encoded part stays one segment of the token |
| `Base64.AtobRejectsForeignChar` | src/app/auth.service.ts:22-23 | a character that is not whitespace, "=" or in the alphabet makes `atob` throw |
| `Base64.AtobRejectsLength` | src/app/auth.service.ts:23 | whitespace-free text of length 1 modulo 4 makes `atob` throw |
| `Http.SetHeader` | src/app/auth.interceptor.ts:59-61 | `set` gives the name exactly one value and keeps every other entry |
| `Http.CloneSetHeader` | src/app/auth.interceptor.ts:59-61 | the clone has the same method, url and body; `get` (`GetHeader`, the first value under the lower-cased name, as read in src/app/auth.interceptor.spec.ts:81) of the set name yields the new value; every other name reads as before |
| `Service.AuthService.constructor` | src/app/auth.service.ts:8 | a fresh service holds `'some-token'` |
| `Service.AuthService.RefreshJwtToken` | src/app/auth.service.ts:10-12 | the refresh yields exactly the current token and changes nothing |
| `Service.DecodeJwtToken` | src/app/auth.service.ts:20-27 | decoding succeeds only if the token has at least two "."-separated segments |
| `Service.UndefinedIsNotBase64` | src/app/auth.service.ts:23 | a missing payload segment reaches `atob` as "undefined" (`SegmentText` past the end), which it rejects |
| `Service.CreateJwtToken` | src/app/auth.interceptor.spec.ts:167-186 | a test token can be built exactly when both JSON texts are binary strings |
| `Service.DecodeCreatedToken` | src/app/auth.interceptor.spec.ts:167-186 | decoding a token built from a header and a payload gives back that header and payload, whatever the signature |
| `Service.TokenSegments` | src/app/auth.service.ts:21-23 | segments 0 and 1 of `h.p.sig` are `h` and `p`, which `DecodeSegment` reads through `SegmentText` (lines 22-23) |
| `Service.SignatureIgnored` | src/app/auth.service.ts:21-27 | tokens that differ only in the signature decode identically |
| `Service.MissingPayloadFails` | src/app/auth.service.ts:21-23 | a token without "." fails to decode |
| `Service.ForeignCharacterFails` | src/app/auth.service.ts:21-22 | a non-base64 character in the first segment makes decoding throw on the header |
| `Service.DefaultTokenUndecodable` | src/app/auth.service.ts:8-22 | the placeholder `'some-token'` fails to decode with the header's InvalidCharacterError |
| `Interceptor.ExpireTime` | src/app/auth.interceptor.ts:38-40 | `new Date(decodedJwt.exp * 1000)` throws exactly on a `null` payload or an `exp` whose conversion throws; a valid Date it yields lies within ±8.64e15 ms and is the number `exp` converts to, times 1000 |
| `Interceptor.ErrorMessage` | src/app/auth.interceptor.ts:86 | building the normalised Error throws exactly when `err.error?.message` (`ErrorBodyMessage`) is present and cannot be converted to a string |
| `Interceptor.Decide` | src/app/auth.interceptor.ts:29-62 | no token forwards the request untouched; a token is forwarded only as `Bearer <token>` on the request; a refresh plan keeps the original request; `intercept` throws exactly when the token fails to decode, its payload is `null`, or its `exp` cannot be converted to a number |
| `Interceptor.AuthInterceptor.constructor` | src/app/auth.interceptor.ts:27 | the interceptor keeps the service it is given |
| `Interceptor.AuthInterceptor.Intercept` | src/app/auth.interceptor.ts:29-90 | `intercept` with the service's own refresh is `Decide` run by `Execute` on the service's token, and the service is left unchanged |
| `InterceptorProperties.NoTokenSendsOriginal` | src/app/auth.interceptor.ts:31-35 | with no token the one request sent is the original, and the refresh is not called |
| `InterceptorProperties.DecisionFollowsExpiry` | src/app/auth.interceptor.ts:38-61 | for a numeric `exp` whose milliseconds are a valid time (`TimeClip`, line 40), the plan is a refresh exactly when `exp * 1000 < now` (`IsExpired`, line 43), and otherwise the request with `Bearer <token>` |
| `InterceptorProperties.ExpiryAtNowIsValid` | src/app/auth.interceptor.ts:43 | an expiry equal to now is not expired |
| `InterceptorProperties.UnreadableExpiryNeverExpires` | src/app/auth.interceptor.ts:40-43 | a missing `exp`, one that converts to NaN, or one out of the range `TimeClip` keeps gives an Invalid Date that never counts as expired (`IsExpired`) |
| `InterceptorProperties.UnconvertibleExpSendsNothing` | src/app/auth.interceptor.ts:38-43 | an `exp` object with its own "toString" key, alone or in an array, makes `intercept` throw a TypeError, with no send and no refresh |
| `InterceptorProperties.NullPayloadSendsNothing` | src/app/auth.interceptor.ts:38-40 | a `null` payload throws and nothing is sent |
| `InterceptorProperties.ValidTokenAttached` | src/app/auth.interceptor.ts:40-66 | an unexpired token: one send, no refresh, `Authorization` is `Bearer <token>` |
| `InterceptorProperties.ExpiredTokenRefreshedFirst` | src/app/auth.interceptor.ts:43-55 | an expired token: one refresh, then one send carrying `Bearer <newJwt>`, which is the stale token only if the refresh returned it |
| `InterceptorProperties.RefreshFailureNotNormalised` | src/app/auth.interceptor.ts:45-55 | a failing refresh ends the request with its own error and nothing is sent |
| `InterceptorProperties.DefaultRefreshResendsStaleToken` | src/app/auth.service.ts:10-12 | with the service's own refresh, the expired token is what the refreshed request carries |
| `InterceptorProperties.BearerOverwritesAuthorization` | src/app/auth.interceptor.ts:51-61 | attaching the token (`WithBearer` with `Bearer`, lines 51 and 59-61) replaces any earlier Authorization value, in any spelling, with exactly one value and keeps method, url, body and the other headers |
| `InterceptorProperties.ErrorMessageChoice` | src/app/auth.interceptor.ts:85-87 | `ErrorBodyMessage` reads `message` only from an object body; the message is a non-empty string `message` when present, the status text when the body has no truthy `message` (`Truthy`), and the conversion throws exactly on an unconvertible `message` |
| `InterceptorProperties.TextBodySurfacesStatusText` | src/app/auth.interceptor.ts:86 | a plain-text error body surfaces the status text |
| `InterceptorProperties.ForwardFailureNormalised` | src/app/auth.interceptor.ts:66-88 | a failure on the non-refresh path, 401 included, becomes one normalised error after exactly one send, or the TypeError when the message cannot be converted |
| `InterceptorProperties.RefreshedFailureNotNormalised` | src/app/auth.interceptor.ts:45-55 | a failure of the refreshed request reaches the caller as it came |
| `InterceptorProperties.AtMostOneSendNoRetry` | src/app/auth.interceptor.ts:29-90 | every run of `Execute` (lines 45-55 and 66-88) makes at most one refresh and then at most one send; only the non-refresh path normalises; the refresh is called exactly on the refresh plan |
| `InterceptorProperties.UndecodableTokenSendsNothing` | src/app/auth.interceptor.ts:35-38 | a token that fails to decode makes `intercept` throw that error, with no send and no refresh |
| `InterceptorProperties.MissingPayloadSendsNothing` | src/app/auth.interceptor.ts:38 | a non-empty token without "." sends nothing |
| `InterceptorProperties.FreshServiceTokenThrows` | src/app/auth.interceptor.ts:31-38 | with a fresh service's token every request throws |
| `InterceptorScenarios.TestTokenExpiry` | src/app/auth.interceptor.spec.ts:167-186 | a test token decodes to an expiry of `exp * 1000` milliseconds |
| `InterceptorScenarios.MakesNormalRequest` | src/app/auth.interceptor.spec.ts:57-85 | a token expiring thirty minutes after it was made is sent unchanged as `Bearer <token>`, with no refresh |
| `InterceptorScenarios.RefreshesBeforeRequest` | src/app/auth.interceptor.spec.ts:86-120 | a token that expired thirty minutes before is refreshed, and the one request sent carries the refreshed token |
| `InterceptorScenarios.UnauthorizedScenario` | src/app/auth.interceptor.spec.ts:121-159 | with the placeholder token left in place, `intercept` throws and sends nothing |

## Left out

- RxJS plumbing is not modelled: `Observable`, subscription, cancellation, and `switchMap` dropping an earlier inner request. "Refresh completes, then forward" is plain function composition.
- A refresh observable that completes without emitting, or emits more than once, is not modelled. A refresh is one token, or `null`, or one error.
- `next.handle` is one final result. The event stream it emits (sent and progress events) is left out, and so are errors that are not an `HttpErrorResponse`.
- `JSON.parse` and `JSON.stringify` are browser functions. They are parameters here, and their round trip is a precondition of the lemmas that need it.
- JavaScript numbers are modelled as integers. Fractional `exp`, rounding of `exp * 1000`, Infinity and the exponent form that `toString` uses from 1e21 upward are left out.
- JsValues.StringToNumber: does not trim whitespace or read fractions, exponents, hex/octal/binary literals or "Infinity". It treats those strings as NaN, where JavaScript may give a number.
- Http.Lower: lower-cases ASCII only. `toLowerCase` also folds non-ASCII letters of header names.
- Strings are sequences of Unicode scalar values. JavaScript's UTF-16 code units, lone surrogates included, are not modelled.
- Only the HttpRequest fields the interceptor touches are modelled: method, url, headers and body. `clone` copies the others unchanged (params, responseType, withCredentials, context, reportProgress).
- The original-case header names that HttpHeaders keeps for serialisation are left out.
- The wall clock is the parameter `nowMs`. `console.log` output is dropped.
- Angular dependency injection and src/app/app.module.ts are wiring only.
- The commented-out 401 refresh-and-retry branch is not modelled, because the code does not run it.
- Concurrent-refresh coalescing and signature verification are not modelled, because neither exists in the code.
