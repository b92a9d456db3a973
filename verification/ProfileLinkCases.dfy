/**
 Inputs that decide the theorems of ProfileLinks: a URL parser that meets what
 they assume, and accepted links that are refused the second time
 (packages/shared/src/profileLinks.ts, lines 13-76).
 */
module ProfileLinkCases {
  import opened Totals
  import opened PercentEncoding
  import opened ProfileLinks

  // ---------------------------------------------------------------------
  // A parser that meets the assumptions
  // ---------------------------------------------------------------------

  const ACCENTED: char := '\U{E9}'

  predicate HostChar(c: char) {
    'a' <= c <= 'z' || '0' <= c <= '9' || c == '-' || c == '.'
  }

  /** Reads https://host/path where nothing needs encoding, and removes the dot segments of the path. */
  function ParsePlain(text: string): Option<Url> {
    if |text| < 8 || text[..8] != "https://" then None
    else
      var rest := text[8..];
      var i := FirstSlash(rest);
      if 0 < i && (forall k :: 0 <= k < i ==> HostChar(rest[k])) && PlainPath(rest[i..])
      then Some(Url("https:", "", "", "", rest[..i], Resolved(rest[i..]), text))
      else None
  }

  const PLAIN_WEB := Web((c: char) => Alphanumeric(c) || c == ACCENTED, ParsePlain, (url: Url) => url)

  lemma HostIsPlain(kind: Platform)
    requires Host(kind) != ""
    ensures forall k :: 0 <= k < |Host(kind)| ==> HostChar(Host(kind)[k]) && Host(kind)[k] != '/'
  {
    hide Host;
    HostCharsPlain(kind);
    HostCharsLower(kind);
  }

  lemma FirstSlashAfter(host: string, path: string)
    requires '/' !in host && path != [] && path[0] == '/'
    ensures FirstSlash(host + path) == |host|
  {
    var whole, i := host + path, FirstSlash(host + path);
    assert whole[|host|] == '/';
    assert forall k :: 0 <= k < |host| ==> whole[k] == host[k] && host[k] in host;
    assert forall k :: 0 <= k < i ==> whole[..i][k] == whole[k];
  }

  lemma ReadsHostAndPath(host: string, path: string)
    requires host != "" && PlainPath(path) && forall k :: 0 <= k < |host| ==> HostChar(host[k])
    ensures ParsePlain("https://" + host + path) == Some(Url("https:", "", "", "", host, Resolved(path), "https://" + host + path))
  {
    StartsWithSlash(path);
    hide Resolved, PlainPath;
    var text := "https://" + host + path;
    FirstSlashAfter(host, path);
    assert text[..8] == "https://" && text[8..] == host + path;
    assert (host + path)[..|host|] == host && (host + path)[|host|..] == path;
    assert forall k :: 0 <= k < |host| ==> (host + path)[k] == host[k];
  }

  lemma PlainParsesCanonical(kind: Platform, path: string)
    requires Host(kind) != "" && PlainPath(path)
    ensures ParsesCanonical(PLAIN_WEB, kind, path)
  {
    HostIsPlain(kind);
    hide Host, Resolved, PlainPath, ParsePlain, HostChar;
    ReadsHostAndPath(Host(kind), path);
  }

  lemma StartsWithSlash(path: string)
    requires PlainPath(path)
    ensures path != [] && path[0] == '/'
  {
  }

  lemma PlainSerialisesBack(text: string)
    ensures SerialisesBack(PLAIN_WEB, text)
  {
    if ParsePlain(text).Some? {
      var rest := text[8..];
      var i := FirstSlash(rest);
      hide Resolved, IsSpace, IsControl;
      forall k | 0 <= k < |text| ensures !IsSpace(text[k]) && !IsControl(text[k]) {
        assert PathChar(text[k]) by {
          if k < 8 {
            assert text[k] == text[..8][k] == "https://"[k];
          } else if k < 8 + i {
            assert text[k] == rest[k - 8];
          } else {
            assert text[k] == rest[i..][k - 8 - i];
          }
        }
        PathCharFacts(text[k]);
      }
      assert text[5] == text[..8][5] && text[6] == text[..8][6] && text[7] == text[..8][7];
      assert HasScheme(text);
    }
  }

  /** The assumptions of the theorems can be met. */
  lemma PlainWebIsFaithful()
    ensures Faithful(PLAIN_WEB)
  {
    forall kind: Platform, path: string | Host(kind) != "" && PlainPath(path) ensures ParsesCanonical(PLAIN_WEB, kind, path) {
      PlainParsesCanonical(kind, path);
    }
    forall text: string ensures SerialisesBack(PLAIN_WEB, text) {
      PlainSerialisesBack(text);
    }
    hide ParsesCanonical, SerialisesBack, Host, PlainPath;
  }

  // ---------------------------------------------------------------------
  // Spotify: an escaped slash before two dots
  // ---------------------------------------------------------------------

  lemma SlashEscaped()
    ensures EncodeChar('/') == "%2F"
  {
    assert Escapes([0x2F]) == Escape(0x2F) + Escapes([]);
  }

  lemma SlashDecodes(a: string, b: string)
    requires '%' !in a && '%' !in b
    ensures Decode(a + ("%2F" + b)) == Some(a + ("/" + b))
  {
    SlashEscaped();
    hide Decode, EncodeChar;
    DecodeEncodedChar('/', b);
    PlainDecodes(b);
    DecodePlain(a, "%2F" + b);
    assert ['/'] + b == "/" + b;
  }

  lemma SpotifyPathDecodes()
    ensures Decode("/user%2F..") == Some("/user/..")
  {
    hide Decode;
    SlashDecodes("/user", "..");
    assert "/user" + ("%2F" + "..") == "/user%2F..";
    assert "/user" + ("/" + "..") == "/user/..";
  }

  lemma OneSegmentResolves(s: string)
    requires '/' !in s && !SingleDot(s) && !DoubleDot(s)
    ensures Resolved("/" + s) == "/" + s
  {
    hide SingleDot, DoubleDot;
    assert ("/" + s)[1..] == s;
    OneSegment(s);
    assert [s][1..] == [] && [] + [s] == [s];
    assert Undotted([s], []) == [s];
  }

  lemma LongIsNoDot(s: string)
    requires |s| > 6
    ensures !SingleDot(s) && !DoubleDot(s)
  {
  }

  lemma SpotifyPathResolves()
    ensures PlainPath("/user%2F..") && Resolved("/user%2F..") == "/user%2F.."
  {
    hide Resolved, SingleDot, DoubleDot;
    LongIsNoDot("user%2F..");
    OneSegmentResolves("user%2F..");
    assert "/" + "user%2F.." == "/user%2F..";
  }

  lemma SpotifyPathAccepted(web: Web)
    ensures UrlPath(web, Spotify, "/user/..") == Some("/user/..") && WithoutSlash("/user/..") == "/user/.."
  {
  }

  /** https://open.spotify.com/user%2F.. is accepted as https://open.spotify.com/user/.., which is refused. */
  lemma SpotifyDotsAreLost(web: Web)
    requires Faithful(web)
    ensures var v := Canonical(Spotify, "/user/..");
            Normalize(web, Spotify, Canonical(Spotify, "/user%2F..")) == Some(v) && Normalize(web, Spotify, v) == None
  {
    hide Faithful, Normalize, Resolved, UrlPath, Decode, PlainPath;
    SpotifyPathResolves();
    SpotifyPathDecodes();
    SpotifyPathAccepted(web);
    CanonicalAgain(web, Spotify, "/user%2F..");
    UnitsBounds(Canonical(Spotify, "/user%2F.."));
    UnitsBounds(Canonical(Spotify, "/user/.."));
    EndAfterFront("https://" + Host(Spotify), "/user/..");
    FixedPointIff(web, Spotify, Canonical(Spotify, "/user%2F.."));
  }

  lemma {:induction false} UnitsBounds(s: string)
    ensures |s| <= Units(s) <= 2 * |s|
  {
    if s != [] {
      UnitsBounds(s[..|s| - 1]);
    }
  }

  // ---------------------------------------------------------------------
  // YouTube: a long handle of letters outside ASCII
  // ---------------------------------------------------------------------

  function Repeat(c: char, n: nat): (s: string)
    ensures |s| == n && forall i :: 0 <= i < n ==> s[i] == c
  {
    seq(n, i requires 0 <= i < n => c)
  }

  lemma {:induction false} EscapesAreLong(s: string)
    requires forall i :: 0 <= i < |s| ==> s[i] as int >= 128
    ensures |Encode(s)| >= 6 * |s|
  {
    if s != [] {
      EscapesAreLong(s[1..]);
      EscapesSize(Octets(s[0] as int));
    }
  }

  lemma LongHandleAccepted(web: Web, c: char)
    requires Faithful(web) && web.letterOrNumber(c) && c as int >= 128
    ensures Normalize(web, YouTube, Repeat(c, 100)) == Some(Canonical(YouTube, "/@" + Encode(Repeat(c, 100))))
  {
    var s := Repeat(c, 100);
    assert !IsSpace(c) && !IsControl(c);
    NothingToTrim(s);
    UnitsBounds(s);
    hide Faithful, IsSpace, IsControl, Units, Encode;
    assert WithoutAt(s) == s && Handle(web, s);
    assert !HasScheme(s);
  }

  /** A hundred such letters make an accepted handle whose link, at six characters and more a letter, is too long the second time. */
  lemma LongHandleIsLost(web: Web, c: char)
    requires Faithful(web) && web.letterOrNumber(c) && c as int >= 128
    ensures var v := Canonical(YouTube, "/@" + Encode(Repeat(c, 100)));
            Normalize(web, YouTube, Repeat(c, 100)) == Some(v) && Normalize(web, YouTube, v) == None
  {
    hide Faithful, Normalize, Encode, Units, Repeat;
    var v := Canonical(YouTube, "/@" + Encode(Repeat(c, 100)));
    LongHandleAccepted(web, c);
    EscapesAreLong(Repeat(c, 100));
    UnitsBounds(v);
    FixedPointIff(web, YouTube, Repeat(c, 100));
  }
}
