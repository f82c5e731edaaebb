/**
 * The token holder and the token decoder.
 *
 * A token is three "."-separated segments, header, payload and signature, as in
 * section 3 of RFC 7519; the first two are base64 text of JSON documents. The
 * decoder reads the first two segments only: no signature is checked.
 *
 * JSON.parse and JSON.stringify are parameters: `parse` returns `None` where
 * JSON.parse throws a SyntaxError.
 */
module Service {
  import opened Wrappers
  import opened JsValues
  import opened JsStrings
  import Base64

  /** The single, mutable token slot. Other code assigns `jwtToken` directly. */
  class AuthService {
    var jwtToken: string

    constructor ()
      ensures jwtToken == "some-token"
    {
      jwtToken := "some-token";
    }

    /** `refreshJwtToken()`: yields the current token and changes nothing. */
    method RefreshJwtToken() returns (newJwt: string)
      ensures newJwt == jwtToken
    {
      newJwt := jwtToken;
    }
  }

  datatype DecodedJwt = DecodedJwt(header: Json, payload: Json)

  /** The exceptions decoding raises: `atob`'s InvalidCharacterError and JSON.parse's
      SyntaxError, each with the index of the segment being decoded. */
  datatype DecodeError = InvalidCharacterError(segment: nat) | JsonSyntaxError(segment: nat)

  /** `parts[i]`; past the end this is `undefined`, which `atob` reads as the text "undefined". */
  function SegmentText(parts: seq<string>, i: nat): string {
    if i < |parts| then parts[i] else "undefined"
  }

  /** `JSON.parse(window.atob(parts[i]))` */
  function DecodeSegment(parts: seq<string>, i: nat, parse: string -> Option<Json>): Result<Json, DecodeError> {
    match Base64.Atob(SegmentText(parts, i))
    case None => Err(InvalidCharacterError(i))
    case Some(text) =>
      match parse(text)
      case None => Err(JsonSyntaxError(i))
      case Some(v) => Ok(v)
  }

  /** `decodeJwtToken(token)`: the header from segment 0, then the payload from segment 1. */
  function DecodeJwtToken(token: string, parse: string -> Option<Json>): (r: Result<DecodedJwt, DecodeError>)
    ensures r.Ok? ==> |Split(token, '.')| >= 2
  {
    UndefinedIsNotBase64();
    var parts := Split(token, '.');
    var header :- DecodeSegment(parts, 0, parse);
    var payload :- DecodeSegment(parts, 1, parse);
    Ok(DecodedJwt(header, payload))
  }

  /** `atob(undefined)` throws: "undefined" has nine characters, 1 modulo 4. */
  lemma UndefinedIsNotBase64()
    ensures Base64.Atob("undefined") == None
  {
    var u := "undefined";
    forall i | 0 <= i < |u| ensures !Base64.IsAsciiWhitespace(u[i]) {
      assert 'a' <= u[i] <= 'z';
    }
    Base64.AtobRejectsLength(u);
  }

  /** The token the tests build: `btoa(JSON.stringify(header)) + "." + btoa(JSON.stringify(payload)) + "." + signature`;
      `None` where `btoa` throws. */
  function CreateJwtToken(header: Json, payload: Json, signature: string, stringify: Json -> string): (r: Option<string>)
    ensures r.Some? <==> Base64.IsLatin1(stringify(header)) && Base64.IsLatin1(stringify(payload))
  {
    match (Base64.Btoa(stringify(header)), Base64.Btoa(stringify(payload)))
    case (Some(h), Some(p)) => Some(h + "." + p + "." + signature)
    case _ => None
  }

  /** The JSON round trip the decoder relies on, for one value, and `btoa` accepting its text. */
  predicate RoundTrips(parse: string -> Option<Json>, stringify: Json -> string, v: Json) {
    Base64.IsLatin1(stringify(v)) && parse(stringify(v)) == Some(v)
  }

  /** Decoding a token built by CreateJwtToken recovers its header and payload, whatever the signature. */
  lemma DecodeCreatedToken(header: Json, payload: Json, signature: string,
                           parse: string -> Option<Json>, stringify: Json -> string)
    requires RoundTrips(parse, stringify, header) && RoundTrips(parse, stringify, payload)
    ensures CreateJwtToken(header, payload, signature, stringify).Some?
    ensures DecodeJwtToken(CreateJwtToken(header, payload, signature, stringify).value, parse)
         == Ok(DecodedJwt(header, payload))
  {
    var h := Base64.Btoa(stringify(header)).value;
    var p := Base64.Btoa(stringify(payload)).value;
    Base64.BtoaHasNoDot(stringify(header));
    Base64.BtoaHasNoDot(stringify(payload));
    Base64.AtobBtoa(stringify(header));
    Base64.AtobBtoa(stringify(payload));
    var parts := TokenSegments(h, p, signature);
    assert SegmentText(parts, 0) == h && SegmentText(parts, 1) == p;
  }

  /** The first two segments of `h.p.signature` are `h` and `p`. */
  lemma TokenSegments(h: string, p: string, signature: string) returns (parts: seq<string>)
    requires '.' !in h && '.' !in p
    ensures parts == Split(h + "." + p + "." + signature, '.')
    ensures |parts| >= 2 && parts[0] == h && parts[1] == p
  {
    SplitPrefix(p, '.', signature);
    SplitPrefix(h, '.', p + "." + signature);
    assert h + "." + p + "." + signature == h + ['.'] + (p + ['.'] + signature);
    parts := Split(h + "." + p + "." + signature, '.');
  }

  /** Tokens that differ only in the signature decode identically. */
  lemma SignatureIgnored(h: string, p: string, sig1: string, sig2: string, parse: string -> Option<Json>)
    requires '.' !in h && '.' !in p
    ensures DecodeJwtToken(h + "." + p + "." + sig1, parse) == DecodeJwtToken(h + "." + p + "." + sig2, parse)
  {
    var parts1 := TokenSegments(h, p, sig1);
    var parts2 := TokenSegments(h, p, sig2);
    assert SegmentText(parts1, 0) == SegmentText(parts2, 0);
    assert SegmentText(parts1, 1) == SegmentText(parts2, 1);
  }

  /** A token without "." has no payload segment, and decoding it throws. */
  lemma MissingPayloadFails(token: string, parse: string -> Option<Json>)
    requires '.' !in token
    ensures DecodeJwtToken(token, parse).Err?
  {
    SplitNoSeparator(token, '.');
  }

  /** A header segment with a character outside the base64 alphabet (other than
      whitespace and "=") makes decoding throw before the payload is read. */
  lemma ForeignCharacterFails(token: string, i: nat, parse: string -> Option<Json>)
    requires i < |token| && '.' !in token[..i + 1]
    requires !Base64.IsAsciiWhitespace(token[i]) && token[i] != '=' && !Base64.InAlphabet(token[i])
    ensures DecodeJwtToken(token, parse) == Err(InvalidCharacterError(0))
  {
    var parts := Split(token, '.');
    HeaderSegmentPrefix(token, i + 1);
    Base64.AtobRejectsForeignChar(parts[0], i);
  }

  /** A "."-free prefix of the token is a prefix of its first segment. */
  lemma {:induction false} HeaderSegmentPrefix(token: string, n: nat)
    requires n <= |token| && '.' !in token[..n]
    ensures |Split(token, '.')[0]| >= n && Split(token, '.')[0][..n] == token[..n]
  {
    if n > 0 {
      assert token[0] == token[..n][0];
      assert token[1..][..n - 1] == token[..n][1..];
      HeaderSegmentPrefix(token[1..], n - 1);
    }
  }

  /** The placeholder token of a fresh service is not decodable: "-" is not base64. */
  lemma DefaultTokenUndecodable(parse: string -> Option<Json>)
    ensures DecodeJwtToken("some-token", parse) == Err(InvalidCharacterError(0))
  {
    var t := "some-token";
    assert t[..5] == "some-";
    ForeignCharacterFails(t, 4, parse);
  }
}
