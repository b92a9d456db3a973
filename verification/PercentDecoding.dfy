/**
 Which texts decodeURIComponent accepts and what they say (section 2.1 of RFC
 3986, section 3 of RFC 3629; packages/shared/src/profileLinks.ts, line 66).
 */
module PercentDecoding {
  import opened Totals
  import opened PercentEncoding

  // ---------------------------------------------------------------------
  // Escaped octets
  // ---------------------------------------------------------------------

  /** The hexadecimal digit of this value, in either case. */
  predicate HexOf(c: char, d: nat) {
    d < 16 && (c == "0123456789ABCDEF"[d] || c == "0123456789abcdef"[d])
  }

  lemma HexIs(c: char, d: nat)
    ensures HexValue(c) == Some(d) <==> HexOf(c, d)
    ensures d < 16 ==> HexDigit(d) == "0123456789ABCDEF"[d]
  {
  }

  /** The text starts with the escape of the octet. */
  predicate Escaped(s: string, octet: Octet) {
    |s| >= 3 && s[0] == '%' && HexOf(s[1], octet / 16) && HexOf(s[2], octet % 16)
  }

  lemma OctetAtIff(s: string, octet: Octet)
    ensures OctetAt(s) == Some(octet) <==> Escaped(s, octet)
  {
    hide HexOf, HexValue;
    if |s| >= 3 {
      HexIs(s[1], octet / 16);
      HexIs(s[2], octet % 16);
      if HexValue(s[1]).Some? && HexValue(s[2]).Some? {
        HexFits(s[1]);
        HexFits(s[2]);
        TwoDigits(HexValue(s[1]).value, HexValue(s[2]).value);
      }
    }
  }

  lemma HexFits(c: char)
    ensures HexValue(c).Some? ==> HexValue(c).value < 16
  {
  }

  lemma TwoDigits(high: nat, low: nat)
    requires high < 16 && low < 16
    ensures high * 16 + low < 256 && (high * 16 + low) / 16 == high && (high * 16 + low) % 16 == low
  {
  }

  lemma OctetFits(s: string)
    ensures OctetAt(s).Some? ==> OctetAt(s).value < 256
  {
  }

  /** The text is the escapes of the octets, one after the other. */
  predicate EscapedAll(s: string, octets: seq<Octet>) {
    if octets == [] then s == "" else Escaped(s, octets[0]) && EscapedAll(s[3..], octets[1..])
  }

  lemma {:induction false} EscapedSize(s: string, octets: seq<Octet>)
    requires EscapedAll(s, octets)
    ensures |s| == 3 * |octets|
  {
    if octets != [] {
      EscapedSize(s[3..], octets[1..]);
    }
  }

  predicate Continuation(octets: seq<Octet>) {
    forall i :: 0 <= i < |octets| ==> 0x80 <= octets[i] < 0xC0
  }

  lemma {:induction false} ContinuedHas(s: string, count: nat, soFar: nat) returns (octets: seq<Octet>)
    requires Continued(s, count, soFar).Some?
    ensures |octets| == count && Continuation(octets) && 3 * count <= |s| && EscapedAll(s[..3 * count], octets)
    ensures Continued(s, count, soFar) == Some(Bits(octets, soFar))
  {
    octets := [];
    if count > 0 {
      var octet := OctetAt(s).value;
      OctetFits(s);
      OctetAtIff(s, octet);
      var rest := ContinuedHas(s[3..], count - 1, soFar * 64 + (octet - 0x80));
      octets := [octet] + rest;
      assert octets[1..] == rest && s[..3 * count][3..] == s[3..][..3 * (count - 1)];
    }
  }

  lemma {:induction false} ContinuedFrom(s: string, octets: seq<Octet>, soFar: nat)
    requires Continuation(octets) && 3 * |octets| <= |s| && EscapedAll(s[..3 * |octets|], octets)
    ensures Continued(s, |octets|, soFar) == Some(Bits(octets, soFar))
  {
    if octets != [] {
      OctetAtIff(s, octets[0]);
      assert s[..3 * |octets|][3..] == s[3..][..3 * |octets[1..]|];
      ContinuedFrom(s[3..], octets[1..], soFar * 64 + (octets[0] - 0x80));
    }
  }

  // ---------------------------------------------------------------------
  // Scalar values
  // ---------------------------------------------------------------------

  /** What a lead and its continuation give, unless it is overlong, is encoded by just these octets. */
  lemma OnlyOctets(octets: seq<Octet>)
    requires octets != [] && Lead(octets[0]).Some? && Lead(octets[0]).value.0 == |octets| - 1 && Continuation(octets[1..])
    requires var n := Bits(octets[1..], Lead(octets[0]).value.1); Lead(octets[0]).value.2 <= n < 0x11_0000
    ensures Octets(Bits(octets[1..], Lead(octets[0]).value.1)) == octets
  {
    hide Bits;
    var a, soFar := octets[0], Lead(octets[0]).value.1;
    if |octets| == 1 {
      assert octets == [a] && octets[1..] == [];
      NoBits(soFar);
    } else if |octets| == 2 {
      assert octets == [a, octets[1]] && octets[1..] == [octets[1]];
      BitsOfOne(octets[1], soFar);
    } else if |octets| == 3 {
      assert octets == [a, octets[1], octets[2]] && octets[1..] == [octets[1], octets[2]];
      BitsOfTwo(octets[1], octets[2], soFar);
      ThreeGroups(soFar, octets[1] - 0x80, octets[2] - 0x80);
    } else {
      assert octets == [a, octets[1], octets[2], octets[3]] && octets[1..] == [octets[1], octets[2], octets[3]];
      BitsOfThree(octets[1], octets[2], octets[3], soFar);
      FourGroups(soFar, octets[1] - 0x80, octets[2] - 0x80, octets[3] - 0x80);
    }
  }

  lemma ThreeGroups(a: nat, b: nat, c: nat)
    requires b < 64 && c < 64
    ensures var n := (a * 64 + b) * 64 + c; n / 4096 == a && n / 64 % 64 == b && n % 64 == c
  {
  }

  lemma FourGroups(a: nat, b: nat, c: nat, d: nat)
    requires b < 64 && c < 64 && d < 64
    ensures var n := ((a * 64 + b) * 64 + c) * 64 + d; n / 26_2144 == a && n / 4096 % 64 == b && n / 64 % 64 == c && n % 64 == d
  {
    ThreeGroups(a, b, c);
    var m := (a * 64 + b) * 64 + c;
    var n := m * 64 + d;
    assert n / 64 == m && n % 64 == d;
    assert n / 4096 == m / 64 && n / 26_2144 == m / 4096;
  }

  /** A text starts with an escaped character of `k` characters exactly if these escape its UTF-8 octets. */
  lemma EscapedAtIff(s: string, c: char, k: nat)
    ensures EscapedAt(s) == Some((c as int, k)) <==> k <= |s| && EscapedAll(s[..k], Octets(c as int))
  {
    hide OctetAt, Lead, Continued, Octets, Bits, Escaped;
    if EscapedAt(s) == Some((c as int, k)) {
      EscapedAtHas(s, c, k);
    } else if k <= |s| && EscapedAll(s[..k], Octets(c as int)) {
      EscapedAtFrom(s, c, k);
    }
  }

  lemma EscapedAtHas(s: string, c: char, k: nat)
    requires EscapedAt(s) == Some((c as int, k))
    ensures k <= |s| && EscapedAll(s[..k], Octets(c as int))
  {
    hide OctetAt, Lead, Continued, Octets, Bits, Escaped;
    var octet := OctetAt(s).value;
    OctetFits(s);
    OctetAtIff(s, octet);
    var lead := Lead(octet).value;
    var tail := ContinuedHas(s[3..], lead.0, lead.1);
    var octets: seq<Octet> := [octet] + tail;
    assert octets[1..] == tail && s[..k][3..] == s[3..][..3 * lead.0];
    OnlyOctets(octets);
    EscapedStarts(s, k, octet);
  }

  lemma EscapedStarts(s: string, k: nat, octet: Octet)
    requires 3 <= k <= |s|
    ensures Escaped(s[..k], octet) <==> Escaped(s, octet)
  {
  }

  lemma EscapedAtFrom(s: string, c: char, k: nat)
    requires k <= |s| && EscapedAll(s[..k], Octets(c as int))
    ensures EscapedAt(s) == Some((c as int, k))
  {
    hide OctetAt, Lead, Continued, Octets, Bits, Escaped;
    var octets := Octets(c as int);
    EscapedSize(s[..k], octets);
    OctetsReadBack(c as int);
    EscapedStarts(s, k, octets[0]);
    OctetAtIff(s, octets[0]);
    assert s[..k][3..] == s[3..][..3 * |octets[1..]|];
    ContinuedFrom(s[3..], octets[1..], Lead(octets[0]).value.1);
    CharIsScalar(c);
  }

  lemma CharIsScalar(c: char)
    ensures Scalar(c as int)
  {
  }

  // ---------------------------------------------------------------------
  // Texts
  // ---------------------------------------------------------------------

  /** One character, plain or as the escapes of its UTF-8 octets. */
  predicate SpellsChar(s: string, c: char) {
    (s == [c] && c != '%') || EscapedAll(s, Octets(c as int))
  }

  /** The text spells each character of `t` in turn. */
  ghost predicate Spells(s: string, t: string)
    decreases |t|
  {
    if t == "" then s == ""
    else exists k :: 0 < k <= |s| && SpellsChar(s[..k], t[0]) && Spells(s[k..], t[1..])
  }

  /**
   Decoding accepts exactly the texts whose every percent sign begins the
   escapes, in either case, of a character's shortest UTF-8 form, and answers
   the characters spelled.
   */
  lemma {:induction false} DecodesIff(s: string, t: string)
    ensures Decode(s) == Some(t) <==> Spells(s, t)
    decreases |s|
  {
    hide EscapedAt, EscapedAll, Octets;
    if s == "" {
    } else if s[0] != '%' {
      if t != "" {
        DecodesIff(s[1..], t[1..]);
        assert t == [t[0]] + t[1..];
        PlainStart(s, t[0]);
      }
    } else if t != "" {
      assert t == [t[0]] + t[1..];
      EscapeStart(s, t[0]);
      var found := EscapedAt(s);
      if found.Some? {
        DecodesIff(s[found.value.1..], t[1..]);
      }
    }
  }

  /** Where a text starts with a plain character, that is all its first character can be. */
  lemma PlainStart(s: string, c: char)
    requires s != "" && s[0] != '%'
    ensures forall k :: 0 < k <= |s| ==> (SpellsChar(s[..k], c) <==> k == 1 && s[0] == c)
  {
    hide HexOf;
    assert s[..1] == [s[0]];
    forall k | 0 < k <= |s| ensures s[..k][0] == s[0] {
    }
  }

  lemma EscapeStart(s: string, c: char)
    requires s != "" && s[0] == '%'
    ensures forall k :: 0 < k <= |s| ==> (SpellsChar(s[..k], c) <==> EscapedAt(s) == Some((c as int, k)))
  {
    hide EscapedAll, Octets, EscapedAt;
    forall k: nat | 0 < k <= |s| ensures SpellsChar(s[..k], c) <==> EscapedAt(s) == Some((c as int, k)) {
      EscapedAtIff(s, c, k);
      assert s[..k][0] == '%';
    }
  }

  /** Letters, digits and -_.!~*'() stand for themselves; any other character becomes its escapes, in capitals. */
  lemma EncodedCharIs(c: char)
    ensures var plain := 'a' <= c <= 'z' || 'A' <= c <= 'Z' || '0' <= c <= '9' || c in {'-', '_', '.', '!', '~', '*', '\'', '(', ')'};
            && (plain ==> EncodeChar(c) == [c])
            && (!plain ==> EscapedAll(EncodeChar(c), Octets(c as int)) && InCapitals(EncodeChar(c)))
  {
    hide Octets, Escape;
    EscapesAreEscaped(Octets(c as int));
  }

  predicate InCapitals(s: string) {
    forall i :: 0 <= i < |s| ==> s[i] == '%' || '0' <= s[i] <= '9' || 'A' <= s[i] <= 'F'
  }

  lemma {:induction false} EscapesAreEscaped(octets: seq<Octet>)
    ensures EscapedAll(Escapes(octets), octets) && InCapitals(Escapes(octets))
  {
    if octets != [] {
      EscapesAreEscaped(octets[1..]);
      EscapeIsEscaped(octets[0], Escapes(octets[1..]));
    }
  }

  lemma EscapeIsEscaped(octet: Octet, rest: string)
    requires InCapitals(rest)
    ensures Escaped(Escape(octet) + rest, octet) && (Escape(octet) + rest)[3..] == rest && InCapitals(Escape(octet) + rest)
  {
    hide HexValue;
    HexIs(HexDigit(octet / 16), octet / 16);
    HexIs(HexDigit(octet % 16), octet % 16);
  }

  /** What encodeURIComponent makes of a text spells that text. */
  lemma EncodingSpells(s: string)
    ensures Spells(Encode(s), s)
  {
    RoundTrip(s);
    DecodesIff(Encode(s), s);
  }
}
