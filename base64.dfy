/**
 * The browser's `btoa` and `atob`.
 *
 * `btoa` encodes a string of code units below 256 with the base64 alphabet and
 * the "=" padding of section 4 of RFC 4648, and throws an InvalidCharacterError
 * (here `None`) for any wider character.
 *
 * `atob` is the HTML standard's "forgiving-base64 decode": ASCII whitespace is
 * dropped, one or two trailing "=" are dropped when the length is a multiple of
 * four, a length of 1 modulo 4 or any character outside the alphabet throws
 * (here `None`), and leftover bits of a final partial group are discarded.
 */
module Base64 {
  import opened Wrappers

  /** Value of a character of the base64 alphabet (Table 1 of RFC 4648). */
  function SextetOf(c: char): (r: Option<nat>)
    ensures r.Some? ==> r.value < 64
  {
    if 'A' <= c <= 'Z' then Some(c as int - 'A' as int)
    else if 'a' <= c <= 'z' then Some(c as int - 'a' as int + 26)
    else if '0' <= c <= '9' then Some(c as int - '0' as int + 52)
    else if c == '+' then Some(62)
    else if c == '/' then Some(63)
    else None
  }

  /** The alphabet character for a 6-bit value; the inverse of SextetOf. */
  function CharOf(v: nat): (c: char)
    requires v < 64
    ensures SextetOf(c) == Some(v)
  {
    if v < 26 then ('A' as int + v) as char
    else if v < 52 then ('a' as int + (v - 26)) as char
    else if v < 62 then ('0' as int + (v - 52)) as char
    else if v == 62 then '+'
    else '/'
  }

  predicate InAlphabet(c: char) {
    SextetOf(c).Some?
  }

  predicate AllInAlphabet(s: string) {
    forall i :: 0 <= i < |s| ==> InAlphabet(s[i])
  }

  /** Every code unit fits in a byte (a "binary string"). */
  predicate IsLatin1(s: string) {
    forall i :: 0 <= i < |s| ==> s[i] as int < 256
  }

  /** Number of characters the final partial group of `n` bytes takes before padding. */
  function TailChars(n: nat): nat {
    if n % 3 == 0 then 0 else n % 3 + 1
  }

  /** The padding that completes the final group of `n` bytes. */
  function Padding(n: nat): string {
    if n % 3 == 1 then "==" else if n % 3 == 2 then "=" else ""
  }

  /** Encoding without padding: every 3 bytes become 4 characters, a final 1 or 2 bytes 2 or 3. */
  function EncodeGroups(s: string): (r: string)
    requires IsLatin1(s)
    ensures |r| == 4 * (|s| / 3) + TailChars(|s|)
    ensures AllInAlphabet(r)
  {
    if |s| == 0 then []
    else
      var b0 := s[0] as int;
      if |s| == 1 then [CharOf(b0 / 4), CharOf(b0 % 4 * 16)]
      else
        var b1 := s[1] as int;
        if |s| == 2 then [CharOf(b0 / 4), CharOf(b0 % 4 * 16 + b1 / 16), CharOf(b1 % 16 * 4)]
        else
          var b2 := s[2] as int;
          [CharOf(b0 / 4), CharOf(b0 % 4 * 16 + b1 / 16), CharOf(b1 % 16 * 4 + b2 / 64), CharOf(b2 % 64)]
            + EncodeGroups(s[3..])
  }

  /** Decoding of padding-free alphabet text: every 4 characters become 3 bytes,
      a final 2 or 3 characters 1 or 2 bytes. */
  function DecodeGroups(d: string): (r: string)
    requires AllInAlphabet(d)
    requires |d| % 4 != 1
    ensures IsLatin1(r)
    ensures |r| == 3 * (|d| / 4) + (if |d| % 4 == 0 then 0 else |d| % 4 - 1)
  {
    if |d| == 0 then []
    else
      var c0 := SextetOf(d[0]).value;
      var c1 := SextetOf(d[1]).value;
      if |d| == 2 then [(c0 * 4 + c1 / 16) as char]
      else
        var c2 := SextetOf(d[2]).value;
        if |d| == 3 then [(c0 * 4 + c1 / 16) as char, (c1 % 16 * 16 + c2 / 4) as char]
        else
          var c3 := SextetOf(d[3]).value;
          [(c0 * 4 + c1 / 16) as char, (c1 % 16 * 16 + c2 / 4) as char, (c2 % 4 * 64 + c3) as char]
            + DecodeGroups(d[4..])
  }

  /** `window.btoa(s)`; `None` is the InvalidCharacterError thrown for a character above U+00FF. */
  function Btoa(s: string): (r: Option<string>)
    ensures r.Some? <==> IsLatin1(s)
    ensures r.Some? ==> |r.value| == 4 * ((|s| + 2) / 3)
  {
    if IsLatin1(s) then Some(EncodeGroups(s) + Padding(|s|)) else None
  }

  /** ASCII whitespace: TAB, LF, FF, CR and SPACE. */
  predicate IsAsciiWhitespace(c: char) {
    c == ' ' || c == '\t' || c == '\n' || c == '\r' || c as int == 0x0C
  }

  function RemoveWhitespace(s: string): (r: string)
    ensures forall i :: 0 <= i < |r| ==> !IsAsciiWhitespace(r[i])
  {
    if s == [] then []
    else (if IsAsciiWhitespace(s[0]) then [] else [s[0]]) + RemoveWhitespace(s[1..])
  }

  /** Drops one or two trailing "=". */
  function StripPadding(d: string): string {
    if |d| >= 2 && d[|d| - 1] == '=' && d[|d| - 2] == '=' then d[..|d| - 2]
    else if |d| >= 1 && d[|d| - 1] == '=' then d[..|d| - 1]
    else d
  }

  /** `window.atob(s)`; `None` is the InvalidCharacterError it throws. */
  function Atob(s: string): (r: Option<string>)
    ensures r.Some? ==> IsLatin1(r.value)
  {
    var text := RemoveWhitespace(s);
    var d := if |text| % 4 == 0 then StripPadding(text) else text;
    if |d| % 4 == 1 || !AllInAlphabet(d) then None
    else Some(DecodeGroups(d))
  }

  // ----- round trip -----

  /** The bit arithmetic of one group: the sextets of up to three bytes give the bytes back. */
  lemma GroupArithmetic(b0: nat, b1: nat, b2: nat)
    requires b0 < 256 && b1 < 256 && b2 < 256
    ensures (b0 / 4) * 4 + (b0 % 4 * 16 + b1 / 16) / 16 == b0
    ensures (b0 % 4 * 16 + b1 / 16) % 16 * 16 + (b1 % 16 * 4 + b2 / 64) / 4 == b1
    ensures (b1 % 16 * 4 + b2 / 64) % 4 * 64 + b2 % 64 == b2
  {
  }

  /** Four characters holding the sextets of three bytes decode to those bytes. */
  lemma DecodeFour(b0: nat, b1: nat, b2: nat)
    requires b0 < 256 && b1 < 256 && b2 < 256
    ensures DecodeGroups([CharOf(b0 / 4), CharOf(b0 % 4 * 16 + b1 / 16), CharOf(b1 % 16 * 4 + b2 / 64), CharOf(b2 % 64)])
         == [b0 as char, b1 as char, b2 as char]
  {
    GroupArithmetic(b0, b1, b2);
  }

  /** One full group: three bytes encode to four characters that decode to the same three bytes. */
  lemma DecodeEncodeGroup(s: string)
    requires IsLatin1(s) && |s| >= 3
    ensures var e := EncodeGroups(s);
      |e| >= 4 && AllInAlphabet(e[..4]) && DecodeGroups(e[..4]) == s[..3] && e[4..] == EncodeGroups(s[3..])
  {
    var b0, b1, b2 := s[0] as int, s[1] as int, s[2] as int;
    DecodeFour(b0, b1, b2);
    var e := EncodeGroups(s);
    assert e[..4] == [CharOf(b0 / 4), CharOf(b0 % 4 * 16 + b1 / 16), CharOf(b1 % 16 * 4 + b2 / 64), CharOf(b2 % 64)];
    assert s[..3] == [b0 as char, b1 as char, b2 as char];
  }

  lemma {:induction false} DecodeEncodeGroups(s: string)
    requires IsLatin1(s)
    ensures DecodeGroups(EncodeGroups(s)) == s
  {
    var e := EncodeGroups(s);
    if |s| >= 3 {
      DecodeEncodeGroup(s);
      DecodeEncodeGroups(s[3..]);
      assert e == e[..4] + e[4..];
      DecodeGroupsAppend(e[..4], e[4..]);
      assert s == s[..3] + s[3..];
    } else if |s| == 2 {
      GroupArithmetic(s[0] as int, s[1] as int, 0);
      assert s == [s[0], s[1]];
    } else if |s| == 1 {
      GroupArithmetic(s[0] as int, 0, 0);
      assert s == [s[0]];
    }
  }

  /** Decoding a full group followed by more text decodes them one after the other. */
  lemma DecodeGroupsAppend(g: string, rest: string)
    requires |g| == 4 && AllInAlphabet(g) && AllInAlphabet(rest) && |rest| % 4 != 1
    ensures AllInAlphabet(g + rest)
    ensures DecodeGroups(g + rest) == DecodeGroups(g) + DecodeGroups(rest)
  {
    var d := g + rest;
    assert d[4..] == rest;
    assert g[4..] == [];
    assert d[..4] == g;
  }

  lemma {:induction false} RemoveWhitespaceNoop(s: string)
    requires forall i :: 0 <= i < |s| ==> !IsAsciiWhitespace(s[i])
    ensures RemoveWhitespace(s) == s
  {
    if s != [] {
      RemoveWhitespaceNoop(s[1..]);
      assert [s[0]] + s[1..] == s;
    }
  }

  /** `atob(btoa(s)) == s` for every string `btoa` accepts. */
  lemma AtobBtoa(s: string)
    requires IsLatin1(s)
    ensures Atob(Btoa(s).value) == Some(s)
  {
    var e := EncodeGroups(s);
    var t := Btoa(s).value;
    assert t == e + Padding(|s|);
    forall i | 0 <= i < |t| ensures !IsAsciiWhitespace(t[i]) {
      if i < |e| {
        assert InAlphabet(e[i]);
      }
    }
    RemoveWhitespaceNoop(t);
    assert |t| % 4 == 0;
    if |e| > 0 {
      assert InAlphabet(e[|e| - 1]);
    }
    assert StripPadding(t) == e;
    DecodeEncodeGroups(s);
  }

  /** Output of `btoa` never contains ".", so it is a single segment of a dotted token. */
  lemma BtoaHasNoDot(s: string)
    requires IsLatin1(s)
    ensures '.' !in Btoa(s).value
  {
    var e := EncodeGroups(s);
    var t := Btoa(s).value;
    forall i | 0 <= i < |t| ensures t[i] != '.' {
      if i < |e| {
        assert InAlphabet(e[i]);
      }
    }
  }

  // ----- whitespace -----

  /** Removing whitespace from a concatenation removes it from each part. */
  lemma {:induction false} RemoveWhitespaceAppend(x: string, y: string)
    ensures RemoveWhitespace(x + y) == RemoveWhitespace(x) + RemoveWhitespace(y)
  {
    if x != [] {
      assert (x + y)[1..] == x[1..] + y;
      RemoveWhitespaceAppend(x[1..], y);
    } else {
      assert x + y == y;
    }
  }

  /** `atob` ignores ASCII whitespace wherever it stands. */
  lemma AtobIgnoresWhitespace(a: string, w: char, b: string)
    requires IsAsciiWhitespace(w)
    ensures Atob(a + [w] + b) == Atob(a + b)
  {
    RemoveWhitespaceAppend(a + [w], b);
    RemoveWhitespaceAppend(a, [w]);
    RemoveWhitespaceAppend(a, b);
    assert RemoveWhitespace([w]) == [];
    assert RemoveWhitespace(a + [w] + b) == RemoveWhitespace(a + b);
  }

  // ----- rejection -----

  lemma {:induction false} RemoveWhitespaceKeeps(s: string, i: nat)
    requires i < |s| && !IsAsciiWhitespace(s[i])
    ensures s[i] in RemoveWhitespace(s)
  {
    if i > 0 {
      RemoveWhitespaceKeeps(s[1..], i - 1);
    }
  }

  /** Stripping the padding only removes "=" characters from the end. */
  lemma StripPaddingKeeps(d: string, k: nat)
    requires k < |d| && d[k] != '='
    ensures k < |StripPadding(d)| && StripPadding(d)[k] == d[k]
  {
  }

  /** A character that is neither whitespace, "=" nor in the alphabet makes `atob` throw. */
  lemma AtobRejectsForeignChar(s: string, i: nat)
    requires i < |s|
    requires !IsAsciiWhitespace(s[i]) && s[i] != '=' && !InAlphabet(s[i])
    ensures Atob(s) == None
  {
    RemoveWhitespaceKeeps(s, i);
    var text := RemoveWhitespace(s);
    var k :| 0 <= k < |text| && text[k] == s[i];
    var d := if |text| % 4 == 0 then StripPadding(text) else text;
    if |text| % 4 == 0 {
      StripPaddingKeeps(text, k);
    }
    assert !InAlphabet(d[k]);
    assert !AllInAlphabet(d);
  }

  /** Whitespace-free text whose length is 1 modulo 4 makes `atob` throw. */
  lemma AtobRejectsLength(s: string)
    requires forall i :: 0 <= i < |s| ==> !IsAsciiWhitespace(s[i])
    requires |s| % 4 == 1
    ensures Atob(s) == None
  {
    RemoveWhitespaceNoop(s);
  }
}
