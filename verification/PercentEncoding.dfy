/**
 Percent-encoding of UTF-8 text (section 2.1 of RFC 3986), as JavaScript's
 encodeURIComponent and decodeURIComponent do it
 (packages/shared/src/profileLinks.ts, lines 25 and 66). A string is a sequence
 of Unicode scalar values.
 */
module PercentEncoding {
  import opened Totals

  predicate Alphanumeric(c: char) {
    'a' <= c <= 'z' || 'A' <= c <= 'Z' || '0' <= c <= '9'
  }

  /** The characters encodeURIComponent leaves alone. */
  predicate Unreserved(c: char) {
    Alphanumeric(c) || c in "-_.!~*'()"
  }

  // ---------------------------------------------------------------------
  // Encoding
  // ---------------------------------------------------------------------

  type Octet = b: nat | b < 256

  /** The UTF-8 octets of a scalar value. */
  function Octets(n: nat): seq<Octet>
    requires n < 0x11_0000
  {
    if n < 0x80 then [n]
    else if n < 0x800 then [0xC0 + n / 64, 0x80 + n % 64]
    else if n < 0x1_0000 then [0xE0 + n / 4096, 0x80 + n / 64 % 64, 0x80 + n % 64]
    else [0xF0 + n / 26_2144, 0x80 + n / 4096 % 64, 0x80 + n / 64 % 64, 0x80 + n % 64]
  }

  function HexDigit(d: nat): char
    requires d < 16
  {
    if d < 10 then ('0' as int + d) as char else ('A' as int + d - 10) as char
  }

  function Escape(octet: Octet): string {
    ['%', HexDigit(octet / 16), HexDigit(octet % 16)]
  }

  function Escapes(octets: seq<Octet>): string {
    if octets == [] then [] else Escape(octets[0]) + Escapes(octets[1..])
  }

  function EncodeChar(c: char): string {
    if Unreserved(c) then [c] else Escapes(Octets(c as int))
  }

  function Encode(s: string): string {
    if s == [] then [] else EncodeChar(s[0]) + Encode(s[1..])
  }

  // ---------------------------------------------------------------------
  // Decoding
  // ---------------------------------------------------------------------

  function HexValue(c: char): Option<nat> {
    if '0' <= c <= '9' then Some(c as int - '0' as int)
    else if 'A' <= c <= 'F' then Some(c as int - 'A' as int + 10)
    else if 'a' <= c <= 'f' then Some(c as int - 'a' as int + 10)
    else None
  }

  /** The octet escaped at the start of `s`. */
  function OctetAt(s: string): Option<nat> {
    if |s| < 3 || s[0] != '%' || HexValue(s[1]).None? || HexValue(s[2]).None? then None
    else Some(HexValue(s[1]).value * 16 + HexValue(s[2]).value)
  }

  /** Continues a code point with `count` escaped octets of the form 10xxxxxx. */
  function Continued(s: string, count: nat, soFar: nat): Option<nat>
    decreases count
  {
    if count == 0 then Some(soFar)
    else
      var octet := OctetAt(s);
      if octet.None? || !(0x80 <= octet.value < 0xC0) then None
      else Continued(s[3..], count - 1, soFar * 64 + (octet.value - 0x80))
  }

  /** How many octets follow the lead, what the lead contributes, and the least value that is not overlong. */
  function Lead(octet: nat): Option<(nat, nat, nat)> {
    if octet < 0x80 then Some((0, octet, 0))
    else if 0xC0 <= octet < 0xE0 then Some((1, octet - 0xC0, 0x80))
    else if 0xE0 <= octet < 0xF0 then Some((2, octet - 0xE0, 0x800))
    else if 0xF0 <= octet < 0xF8 then Some((3, octet - 0xF0, 0x1_0000))
    else None
  }

  predicate Scalar(n: nat) {
    n < 0xD800 || 0xE000 <= n < 0x11_0000
  }

  /** The scalar value escaped at the start of `s` and the number of characters it takes. */
  function EscapedAt(s: string): (found: Option<(nat, nat)>)
    ensures found.Some? ==> 0 < found.value.1 <= |s| && Scalar(found.value.0)
  {
    var octet := OctetAt(s);
    if octet.None? || Lead(octet.value).None? then None
    else
      var lead := Lead(octet.value).value;
      if |s| < 3 + 3 * lead.0 then None
      else
        var n := Continued(s[3..], lead.0, lead.1);
        if n.None? || n.value < lead.2 || !Scalar(n.value) then None else Some((n.value, 3 + 3 * lead.0))
  }

  function Prepended(c: char, rest: Option<string>): Option<string> {
    if rest.None? then None else Some([c] + rest.value)
  }

  /** None where decodeURIComponent throws. */
  function Decode(s: string): Option<string> {
    if s == [] then Some([])
    else if s[0] != '%' then Prepended(s[0], Decode(s[1..]))
    else
      var found := EscapedAt(s);
      if found.None? then None else Prepended(found.value.0 as char, Decode(s[found.value.1..]))
  }

  // ---------------------------------------------------------------------
  // Round trip
  // ---------------------------------------------------------------------

  lemma HexReadsBack(d: nat)
    requires d < 16
    ensures HexValue(HexDigit(d)) == Some(d) && Alphanumeric(HexDigit(d))
  {
  }

  lemma OctetOfEscape(octet: Octet, rest: string)
    ensures OctetAt(Escape(octet) + rest) == Some(octet)
    ensures (Escape(octet) + rest)[3..] == rest
  {
  }

  /** Reading back continuation octets appends their six bits each. */
  lemma {:induction false} ContinuedReads(octets: seq<Octet>, rest: string, soFar: nat)
    requires forall i :: 0 <= i < |octets| ==> 0x80 <= octets[i] < 0xC0
    ensures Continued(Escapes(octets) + rest, |octets|, soFar) == Some(Bits(octets, soFar))
  {
    hide OctetAt, Escape;
    if octets != [] {
      OctetOfEscape(octets[0], Escapes(octets[1..]) + rest);
      assert Escapes(octets) + rest == Escape(octets[0]) + (Escapes(octets[1..]) + rest);
      ContinuedReads(octets[1..], rest, soFar * 64 + (octets[0] - 0x80));
    }
  }

  function Bits(octets: seq<Octet>, soFar: nat): nat
    requires forall i :: 0 <= i < |octets| ==> 0x80 <= octets[i]
  {
    if octets == [] then soFar else Bits(octets[1..], soFar * 64 + (octets[0] - 0x80))
  }

  lemma {:induction false} EscapesSize(octets: seq<Octet>)
    ensures |Escapes(octets)| == 3 * |octets|
  {
    if octets != [] {
      EscapesSize(octets[1..]);
    }
  }

  lemma BitsOfOne(a: Octet, soFar: nat)
    requires 0x80 <= a
    ensures Bits([a], soFar) == soFar * 64 + (a - 0x80)
  {
  }

  lemma BitsOfTwo(a: Octet, b: Octet, soFar: nat)
    requires 0x80 <= a && 0x80 <= b
    ensures Bits([a, b], soFar) == (soFar * 64 + (a - 0x80)) * 64 + (b - 0x80)
  {
    assert [a, b][1..] == [b];
    BitsOfOne(b, soFar * 64 + (a - 0x80));
  }

  lemma BitsOfThree(a: Octet, b: Octet, c: Octet, soFar: nat)
    requires 0x80 <= a && 0x80 <= b && 0x80 <= c
    ensures Bits([a, b, c], soFar) == ((soFar * 64 + (a - 0x80)) * 64 + (b - 0x80)) * 64 + (c - 0x80)
  {
    assert [a, b, c][1..] == [b, c];
    BitsOfTwo(b, c, soFar * 64 + (a - 0x80));
  }

  lemma SixBitGroups(n: nat)
    ensures n == n / 64 * 64 + n % 64
    ensures n == (n / 4096 * 64 + n / 64 % 64) * 64 + n % 64
    ensures n == ((n / 26_2144 * 64 + n / 4096 % 64) * 64 + n / 64 % 64) * 64 + n % 64
  {
    assert n / 4096 == n / 64 / 64 && n / 26_2144 == n / 4096 / 64;
  }

  /** The lead octet tells the length, and the six-bit groups give the scalar value back. */
  lemma OctetsReadBack(n: nat)
    requires n < 0x11_0000
    ensures var octets := Octets(n);
            var lead := Lead(octets[0]);
            && lead.Some? && lead.value.0 == |octets| - 1 && lead.value.2 <= n
            && (forall i :: 0 <= i < |octets| - 1 ==> 0x80 <= octets[1..][i] < 0xC0)
            && Bits(octets[1..], lead.value.1) == n
  {
    hide Bits;
    var tail := Octets(n)[1..];
    SixBitGroups(n);
    if n < 0x80 {
      NoBits(n);
      assert tail == [];
    } else if n < 0x800 {
      BitsOfOne(0x80 + n % 64, n / 64);
      assert tail == [0x80 + n % 64];
    } else if n < 0x1_0000 {
      BitsOfTwo(0x80 + n / 64 % 64, 0x80 + n % 64, n / 4096);
      assert tail == [0x80 + n / 64 % 64, 0x80 + n % 64];
    } else {
      BitsOfThree(0x80 + n / 4096 % 64, 0x80 + n / 64 % 64, 0x80 + n % 64, n / 26_2144);
      assert tail == [0x80 + n / 4096 % 64, 0x80 + n / 64 % 64, 0x80 + n % 64];
    }
  }

  lemma NoBits(n: nat)
    ensures Bits([], n) == n
  {
  }

  lemma EscapedReadsBack(n: nat, rest: string)
    requires Scalar(n)
    ensures EscapedAt(Escapes(Octets(n)) + rest) == Some((n, |Escapes(Octets(n))|))
  {
    hide OctetAt, Escape, Octets, Continued, Bits, Lead;
    var octets := Octets(n);
    OctetsReadBack(n);
    var tail, more := octets[1..], Escapes(octets[1..]) + rest;
    assert Escapes(octets) + rest == Escape(octets[0]) + more;
    OctetOfEscape(octets[0], more);
    ContinuedReads(tail, rest, Lead(octets[0]).value.1);
    EscapesSize(octets);
  }

  lemma DecodeEncodedChar(c: char, rest: string)
    ensures Decode(EncodeChar(c) + rest) == Prepended(c, Decode(rest))
  {
    if Unreserved(c) {
      assert ([c] + rest)[1..] == rest;
    } else {
      hide EscapedAt;
      var code := Escapes(Octets(c as int));
      EscapedReadsBack(c as int, rest);
      assert (code + rest)[|code|..] == rest;
      assert (code + rest)[0] == '%';
    }
  }

  /** decodeURIComponent undoes encodeURIComponent on every string. */
  lemma {:induction false} RoundTrip(s: string)
    ensures Decode(Encode(s)) == Some(s)
  {
    if s != [] {
      DecodeEncodedChar(s[0], Encode(s[1..]));
      RoundTrip(s[1..]);
      assert s == [s[0]] + s[1..];
    }
  }

  predicate SafeChar(c: char) {
    Unreserved(c) || c == '%'
  }

  /** An encoding uses unreserved characters and percent signs only. */
  lemma {:induction false} EncodeIsSafe(s: string)
    ensures forall c :: c in Encode(s) ==> SafeChar(c)
  {
    if s != [] {
      EncodeIsSafe(s[1..]);
      if !Unreserved(s[0]) {
        EscapesAreSafe(Octets(s[0] as int));
      }
    }
  }

  lemma {:induction false} EscapesAreSafe(octets: seq<Octet>)
    ensures forall c :: c in Escapes(octets) ==> SafeChar(c)
  {
    if octets != [] {
      EscapesAreSafe(octets[1..]);
      HexReadsBack(octets[0] / 16);
      HexReadsBack(octets[0] % 16);
    }
  }

  function Followed(s: string, rest: Option<string>): Option<string> {
    if rest.None? then None else Some(s + rest.value)
  }

  /** Text without percent signs decodes to itself. */
  lemma {:induction false} DecodePlain(s: string, rest: string)
    requires '%' !in s
    ensures Decode(s + rest) == Followed(s, Decode(rest))
  {
    if s == [] {
      assert s + rest == rest;
      assert Decode(rest).Some? ==> [] + Decode(rest).value == Decode(rest).value;
    } else {
      assert s[0] in s && (s + rest)[1..] == s[1..] + rest;
      DecodePlain(s[1..], rest);
      assert Decode(rest).Some? ==> [s[0]] + (s[1..] + Decode(rest).value) == s + Decode(rest).value;
    }
  }
}
