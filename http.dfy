/**
 * The parts of Angular's HttpRequest, HttpHeaders, HttpResponse and
 * HttpErrorResponse that the interceptor reads or builds.
 *
 * HttpHeaders keeps its entries under the lower-cased header name, each with a
 * list of values; `set` replaces the whole list and `get` returns its first
 * value. Requests are immutable values: `clone` builds a new one.
 */
module Http {
  import opened Wrappers
  import opened JsValues

  /** `toLowerCase` on the ASCII range. */
  function LowerChar(c: char): (r: char)
    ensures 'A' <= c <= 'Z' ==> r as int == c as int + 32
    ensures !('A' <= c <= 'Z') ==> r == c
  {
    if 'A' <= c <= 'Z' then (c as int + 32) as char else c
  }

  function Lower(s: string): (r: string)
    ensures |r| == |s|
    ensures forall i :: 0 <= i < |s| ==> r[i] == LowerChar(s[i])
  {
    seq(|s|, i requires 0 <= i < |s| => LowerChar(s[i]))
  }

  /** Header entries, keyed by lower-cased name. */
  type Headers = map<string, seq<string>>

  /** `headers.get(name)`: the first value stored under the name, case-insensitively. */
  function GetHeader(h: Headers, name: string): (r: Option<string>)
    ensures r.Some? <==> Lower(name) in h && h[Lower(name)] != []
    ensures r.Some? ==> r.value == h[Lower(name)][0]
  {
    var key := Lower(name);
    if key in h && h[key] != [] then Some(h[key][0]) else None
  }

  /** `headers.set(name, value)`: the name now has exactly that one value. */
  function SetHeader(h: Headers, name: string, value: string): (r: Headers)
    ensures r.Keys == h.Keys + {Lower(name)}
    ensures r[Lower(name)] == [value]
    ensures forall k :: k in h && k != Lower(name) ==> r[k] == h[k]
  {
    h[Lower(name) := [value]]
  }

  /** `verb` is the HTTP method (`request.method`). */
  datatype HttpRequest = HttpRequest(verb: string, url: string, headers: Headers, body: Option<Json>)

  /** `request.clone({ setHeaders: { [name]: value } })` */
  function CloneSetHeader(request: HttpRequest, name: string, value: string): (r: HttpRequest)
    ensures r.verb == request.verb && r.url == request.url && r.body == request.body
    ensures GetHeader(r.headers, name) == Some(value)
    ensures forall n :: Lower(n) != Lower(name) ==> GetHeader(r.headers, n) == GetHeader(request.headers, n)
  {
    request.(headers := SetHeader(request.headers, name, value))
  }

  /** A response that reached the interceptor's caller. */
  datatype HttpResponse = HttpResponse(status: int, body: Option<Json>)

  /** A failed exchange: `error` is the response body, `None` when there was none. */
  datatype HttpErrorResponse = HttpErrorResponse(status: int, statusText: string, error: Option<Json>)

  /** What `next.handle(request)` yields: a response or an error. */
  datatype Transport = Received(response: HttpResponse) | Failed(failure: HttpErrorResponse)
}
