/**
 The normal form of profile links (packages/shared/src/profileLinks.ts, lines
 1-89). A link names a platform and a value; an accepted value is a canonical
 https URL, or a display name for Epic Games.

 Regular expressions over letters take the Unicode property classes, and the
 URL constructor, from a Web record; the theorems hold for every Web that meets
 the properties of the WHATWG URL parser stated in Faithful.
 */
module ProfileLinks {
  import opened Totals
  import opened PercentEncoding

  datatype Platform =
    | X | Spotify | Steam | EpicGames | Instagram | YouTube | Twitch | GitHub | TikTok | Bluesky | Website

  const PLATFORM_COUNT: nat := 11
  const MAX_UNITS: nat := 512

  datatype Url = Url(protocol: string, username: string, password: string, port: string, hostname: string, pathname: string, href: string)

  datatype Web = Web(
    letterOrNumber: char -> bool,         // \p{L} and \p{N}
    parse: string -> Option<Url>,         // new URL(text)
    secured: Url -> Url                   // url.protocol = 'https:'
  )

  // ---------------------------------------------------------------------
  // Text
  // ---------------------------------------------------------------------

  /** The characters of \s, which are also the ones trim removes. */
  predicate IsSpace(c: char) {
    var n := c as int;
    || 9 <= n <= 13 || n == 32 || n == 0xA0 || n == 0x1680 || 0x2000 <= n <= 0x200A
    || n == 0x2028 || n == 0x2029 || n == 0x202F || n == 0x205F || n == 0x3000 || n == 0xFEFF
  }

  predicate IsControl(c: char) {
    c as int < 32 || c as int == 127
  }

  /** The length JavaScript reports: UTF-16 code units. */
  function Units(s: string): nat {
    if s == [] then 0 else Units(s[..|s| - 1]) + if s[|s| - 1] as int < 0x1_0000 then 1 else 2
  }

  function TrimStart(s: string): string {
    if s != [] && IsSpace(s[0]) then TrimStart(s[1..]) else s
  }

  function TrimEnd(s: string): string {
    if s != [] && IsSpace(s[|s| - 1]) then TrimEnd(s[..|s| - 1]) else s
  }

  function Trim(s: string): string {
    TrimEnd(TrimStart(s))
  }

  predicate HasScheme(s: string) {
    exists i :: 0 <= i < |s| - 2 && s[i] == ':' && s[i + 1] == '/' && s[i + 2] == '/'
  }

  function LowerChar(c: char): char {
    if 'A' <= c <= 'Z' then (c as int + 32) as char else c
  }

  function Lower(s: string): (t: string)
    ensures |t| == |s|
  {
    seq(|s|, i requires 0 <= i < |s| => LowerChar(s[i]))
  }

  /** Between lo and hi letters and digits of ASCII, or characters of `extra`. */
  predicate Run(s: string, extra: string, lo: nat, hi: nat) {
    lo <= |s| <= hi && forall i :: 0 <= i < |s| ==> Alphanumeric(s[i]) || s[i] in extra
  }

  predicate SeventeenDigits(s: string) {
    |s| == 17 && forall i :: 0 <= i < |s| ==> '0' <= s[i] <= '9'
  }

  /** A YouTube handle. */
  predicate Handle(web: Web, s: string) {
    1 <= |s| <= 100 && forall i :: 0 <= i < |s| ==> web.letterOrNumber(s[i]) || s[i] in "_.-"
  }

  predicate EpicName(web: Web, s: string) {
    1 <= |s| <= 32 && forall i :: 0 <= i < |s| ==> web.letterOrNumber(s[i]) || s[i] in " ._-"
  }

  predicate ReservedOnX(s: string) {
    Lower(s) in {"home", "explore", "settings", "intent", "search", "help", "i"}
  }

  // ---------------------------------------------------------------------
  // profilePath
  // ---------------------------------------------------------------------

  function WithoutAt(s: string): string {
    if s != [] && s[0] == '@' then s[1..] else s
  }

  function ProfilePath(web: Web, kind: Platform, input: string): Option<string> {
    var short := WithoutAt(input);
    match kind
    case X => if Run(short, "_", 1, 15) && !ReservedOnX(short) then Some("/" + short) else None
    case Instagram => if Run(short, "_.", 1, 30) then Some("/" + short) else None
    case Twitch => if Run(short, "_", 1, 25) then Some("/" + short) else None
    case GitHub => if Run(short, "-", 1, 39) then Some("/" + short) else None
    case TikTok => if Run(short, "_.", 1, 32) then Some("/@" + short) else None
    case YouTube => if Handle(web, short) then Some("/@" + Encode(short)) else None
    case Bluesky => if Run(short, ".:-", 3, 253) then Some("/profile/" + short) else None
    case Steam =>
      if SeventeenDigits(short) then Some("/profiles/" + short)
      else if Run(short, "_-", 1, 64) then Some("/id/" + short)
      else None
    case _ => None
  }

  // ---------------------------------------------------------------------
  // normalizeProfileSocialLink
  // ---------------------------------------------------------------------

  function Host(kind: Platform): string {
    match kind
    case X => "x.com"
    case Spotify => "open.spotify.com"
    case Steam => "steamcommunity.com"
    case Instagram => "instagram.com"
    case YouTube => "youtube.com"
    case Twitch => "twitch.tv"
    case GitHub => "github.com"
    case TikTok => "tiktok.com"
    case Bluesky => "bsky.app"
    case _ => ""
  }

  function Canonical(kind: Platform, path: string): string {
    "https://" + Host(kind) + path
  }

  /** The prefix in any case, then a run. */
  predicate Under(pathname: string, prefix: string, extra: string, lo: nat, hi: nat) {
    |pathname| >= |prefix| && Lower(pathname[..|prefix|]) == prefix && Run(pathname[|prefix|..], extra, lo, hi)
  }

  predicate SteamPath(pathname: string) {
    || Under(pathname, "/id/", "_-", 1, 64)
    || (|pathname| == 27 && Lower(pathname[..10]) == "/profiles/" && SeventeenDigits(pathname[10..]))
  }

  /** The paths a URL may carry as they are. */
  predicate KeptPath(kind: Platform, pathname: string) {
    match kind
    case Spotify => Under(pathname, "/user/", "_.-", 1, 128)
    case Steam => SteamPath(pathname)
    case YouTube => Under(pathname, "/channel/", "_-", 1, 64)
    case Bluesky => Under(pathname, "/profile/", ".:-", 3, 253)
    case _ => false
  }

  function UrlPath(web: Web, kind: Platform, pathname: string): Option<string> {
    if KeptPath(kind, pathname) then Some(pathname)
    else if kind.YouTube? || kind.TikTok? then
      if |pathname| >= 2 && pathname[..2] == "/@" then ProfilePath(web, kind, pathname[2..]) else None
    else if |pathname| >= 2 && pathname[0] == '/' && '/' !in pathname[1..] then ProfilePath(web, kind, pathname[1..])
    else None
  }

  function WithoutWww(host: string): string {
    if |host| >= 4 && host[..4] == "www." then host[4..] else host
  }

  function WithoutSlash(s: string): string {
    if s != [] && s[|s| - 1] == '/' then s[..|s| - 1] else s
  }

  predicate EndsWith(s: string, end: string) {
    |s| >= |end| && s[|s| - |end|..] == end
  }

  /** At least two dot-separated labels of letters, digits and hyphens; not local, not an IP address. */
  predicate PublicHost(host: string) {
    && (forall i :: 0 <= i < |host| ==> Alphanumeric(host[i]) || host[i] in "-.")
    && '.' in host && host[0] != '.' && host[|host| - 1] != '.'
    && (forall i :: 0 <= i < |host| - 1 ==> !(host[i] == '.' && host[i + 1] == '.'))
    && !EndsWith(host, ".localhost") && !EndsWith(host, ".local")
    && exists i :: 0 <= i < |host| && !('0' <= host[i] <= '9') && host[i] != '.'
  }

  predicate PlainHttp(url: Url) {
    url.protocol in {"https:", "http:"} && url.username == "" && url.password == "" && url.port == ""
  }

  function FromUrl(web: Web, kind: Platform, url: Option<Url>): Option<string> {
    if url.None? || !PlainHttp(url.value) then None
    else
      var host := WithoutWww(Lower(url.value.hostname));
      if kind.Website? then
        var href := web.secured(url.value).href;
        if PublicHost(host) && Units(href) <= MAX_UNITS then Some(href) else None
      else if host != Host(kind) && !(kind.X? && host == "twitter.com") then None
      else
        var pathname := Decode(url.value.pathname);
        if pathname.None? then None
        else
          var path := UrlPath(web, kind, WithoutSlash(pathname.value));
          if path.Some? && Units(Canonical(kind, path.value)) <= MAX_UNITS then Some(Canonical(kind, path.value)) else None
  }

  function Normalize(web: Web, kind: Platform, value: string): Option<string> {
    var text := Trim(value);
    if text == "" || Units(text) > MAX_UNITS || exists i :: 0 <= i < |text| && IsControl(text[i]) then None
    else if kind.EpicGames? then
      if EpicName(web, text) then Some(text) else None
    else if exists i :: 0 <= i < |text| && IsSpace(text[i]) then None
    else if !HasScheme(text) && !kind.Website? && ProfilePath(web, kind, text).Some? then
      Some(Canonical(kind, ProfilePath(web, kind, text).value))
    else FromUrl(web, kind, web.parse(if HasScheme(text) then text else "https://" + text))
  }

  // ---------------------------------------------------------------------
  // The URL parser on normalised links
  // ---------------------------------------------------------------------

  function FirstSlash(s: string): (i: nat)
    ensures i <= |s| && '/' !in s[..i] && (i < |s| ==> s[i] == '/')
  {
    if s == [] || s[0] == '/' then 0 else
      var i := FirstSlash(s[1..]) + 1;
      assert s[..i] == [s[0]] + s[1..][..i - 1];
      i
  }

  function Segments(s: string): seq<string>
    decreases |s|
  {
    var i := FirstSlash(s);
    if i == |s| then [s] else [s[..i]] + Segments(s[i + 1..])
  }

  function Joined(segments: seq<string>): string {
    if segments == [] then [] else if |segments| == 1 then segments[0] else segments[0] + "/" + Joined(segments[1..])
  }

  predicate SingleDot(segment: string) {
    Lower(segment) in {".", "%2e"}
  }

  predicate DoubleDot(segment: string) {
    Lower(segment) in {"..", ".%2e", "%2e.", "%2e%2e"}
  }

  /** Dot segments are removed as the parser removes them, from left to right. */
  function Undotted(segments: seq<string>, out: seq<string>): seq<string> {
    if segments == [] then out
    else
      var last := |segments| == 1;
      if DoubleDot(segments[0]) then
        var shorter := if out == [] then [] else out[..|out| - 1];
        Undotted(segments[1..], if last then shorter + [""] else shorter)
      else if SingleDot(segments[0]) then Undotted(segments[1..], if last then out + [""] else out)
      else Undotted(segments[1..], out + [segments[0]])
  }

  /** The pathname of a URL whose path needs no further encoding. */
  function Resolved(path: string): string
    requires path != []
  {
    "/" + Joined(Undotted(Segments(path[1..]), []))
  }

  predicate PathChar(c: char) {
    SafeChar(c) || c == '@' || c == ':' || c == '/'
  }

  predicate PlainPath(path: string) {
    path != [] && path[0] == '/' && forall i :: 0 <= i < |path| ==> PathChar(path[i])
  }

  /** The parser on https://host/path. */
  predicate ParsesCanonical(web: Web, kind: Platform, path: string)
    requires path != []
  {
    var url := web.parse(Canonical(kind, path));
    && url.Some? && PlainHttp(url.value)
    && url.value.hostname == Host(kind) && url.value.pathname == Resolved(path)
  }

  predicate Clean(s: string) {
    s != [] && HasScheme(s) && forall i :: 0 <= i < |s| ==> !IsSpace(s[i]) && !IsControl(s[i])
  }

  /** A parsed URL switched to https serialises without spaces and parses back to itself. */
  predicate SerialisesBack(web: Web, text: string) {
    var url := web.parse(text);
    url.Some? && PlainHttp(url.value) ==>
      var s := web.secured(url.value);
      && Clean(s.href) && web.parse(s.href) == Some(s) && web.secured(s) == s
      && PlainHttp(s) && s.hostname == url.value.hostname
  }

  /** What is used of Unicode's classes and of the URL parser. */
  ghost predicate Faithful(web: Web) {
    && (forall c: char :: c as int < 128 ==> (web.letterOrNumber(c) <==> Alphanumeric(c)))
    && (forall c: char :: web.letterOrNumber(c) ==> !IsSpace(c))
    && (forall kind: Platform, path: string :: Host(kind) != "" && PlainPath(path) ==> ParsesCanonical(web, kind, path))
    && (forall text: string :: SerialisesBack(web, text))
  }

  // ---------------------------------------------------------------------
  // Text facts
  // ---------------------------------------------------------------------

  lemma NothingToTrim(s: string)
    requires s != [] ==> !IsSpace(s[0]) && !IsSpace(s[|s| - 1])
    ensures Trim(s) == s
  {
  }

  lemma {:induction false} TrimmedAtEnds(s: string)
    ensures TrimStart(s) != [] ==> !IsSpace(TrimStart(s)[0])
    ensures var t := TrimEnd(s); t <= s && (t != [] ==> !IsSpace(t[|t| - 1]))
  {
    if s != [] && IsSpace(s[0]) {
      TrimmedAtEnds(s[1..]);
    }
    TrimmedAtEnd(s);
  }

  lemma {:induction false} TrimmedAtEnd(s: string)
    ensures var t := TrimEnd(s); t <= s && (t != [] ==> !IsSpace(t[|t| - 1]))
  {
    if s != [] && IsSpace(s[|s| - 1]) {
      TrimmedAtEnd(s[..|s| - 1]);
    }
  }

  lemma TrimTwice(s: string)
    ensures Trim(Trim(s)) == Trim(s)
  {
    var t := TrimStart(s);
    TrimmedAtEnds(s);
    TrimmedAtEnds(t);
    assert Trim(s) != [] ==> Trim(s)[0] == t[0];
    NothingToTrim(Trim(s));
  }

  lemma PathCharFacts(c: char)
    requires PathChar(c)
    ensures !IsSpace(c) && !IsControl(c) && c as int < 128
  {
  }

  /** Characters of a run are path characters, and none of them is special. */
  lemma RunFacts(s: string, extra: string, lo: nat, hi: nat)
    requires Run(s, extra, lo, hi) && extra in {"_", "_.", "-", "_-", "_.-", ".:-"}
    ensures '/' !in s && '%' !in s && '@' !in s
    ensures forall i :: 0 <= i < |s| ==> PathChar(s[i])
  {
  }

  // ---------------------------------------------------------------------
  // Paths of one and two segments
  // ---------------------------------------------------------------------

  /** A segment that can be a dot segment only by being "." or "..". */
  predicate Tame(s: string) {
    s != [] && '/' !in s && (s[0] == '@' || '%' !in s)
  }

  predicate Dots(s: string) {
    s == "." || s == ".."
  }

  lemma TameDots(s: string)
    requires Tame(s)
    ensures SingleDot(s) <==> s == "."
    ensures DoubleDot(s) <==> s == ".."
  {
    var t := Lower(s);
    assert forall i :: 0 <= i < |s| ==> (t[i] == '%' <==> s[i] == '%') && (t[i] == '.' <==> s[i] == '.') && (t[i] == '@' <==> s[i] == '@');
    assert '%' !in s ==> forall i :: 0 <= i < |s| ==> t[i] != '%';
    if |s| == 1 {
      assert s == [s[0]] && t == [t[0]];
    } else if |s| == 2 {
      assert s == [s[0], s[1]] && t == [t[0], t[1]];
    }
    assert "%2e"[0] == '%' && ".%2e"[1] == '%' && "%2e."[0] == '%' && "%2e%2e"[0] == '%' && ".%2e"[0] == '.';
  }

  lemma OneSegment(s: string)
    requires '/' !in s
    ensures Segments(s) == [s]
  {
  }

  lemma TwoSegments(a: string, s: string)
    requires '/' !in a && '/' !in s
    ensures Segments(a + "/" + s) == [a, s]
  {
    var whole := a + "/" + s;
    var i := FirstSlash(whole);
    assert whole[|a|] == '/';
    assert forall k :: 0 <= k < |a| ==> whole[k] == a[k] && a[k] in a;
    assert forall k :: 0 <= k < i ==> whole[..i][k] == whole[k];
    assert whole[..i] == a && whole[i + 1..] == s;
    OneSegment(s);
  }

  lemma ResolvedOne(s: string)
    requires Tame(s)
    ensures Resolved("/" + s) == if Dots(s) then "/" else "/" + s
  {
    assert ("/" + s)[1..] == s;
    OneSegment(s);
    TameDots(s);
    assert [s][1..] == [];
    hide SingleDot, DoubleDot;
    UndottedOne(s, []);
  }

  lemma UndottedOne(s: string, out: seq<string>)
    requires Tame(s)
    ensures Undotted([s], out) ==
            if s == ".." then (if out == [] then [] else out[..|out| - 1]) + [""]
            else if s == "." then out + [""]
            else out + [s]
  {
    TameDots(s);
    assert [s][1..] == [];
  }

  lemma ResolvedTwo(a: string, s: string)
    requires Tame(a) && Tame(s) && !Dots(a)
    ensures Resolved("/" + a + "/" + s) ==
            if s == ".." then "/" else if s == "." then "/" + a + "/" else "/" + a + "/" + s
  {
    assert ("/" + a + "/" + s)[1..] == a + "/" + s;
    TwoSegments(a, s);
    TameDots(a);
    assert [a, s][1..] == [s] && [] + [a] == [a];
    assert Undotted([a, s], []) == Undotted([s], [a]);
    UndottedOne(s, [a]);
    assert [a, ""][1..] == [""] && [a, s][1..] == [s];
    if s == ".." {
      assert [a][..0] + [""] == [""];
    } else if s == "." {
      assert [a] + [""] == [a, ""];
      assert Joined([a, ""]) == a + "/" + "";
    } else {
      assert [a] + [s] == [a, s];
      assert Joined([a, s]) == a + "/" + s;
      assert "/" + (a + "/" + s) == "/" + a + "/" + s;
    }
  }

  predicate OneShape(path: string, s: string) {
    path == "/" + s && Tame(s)
  }

  predicate TwoShape(kind: Platform, path: string, a: string, s: string) {
    path == "/" + a + "/" + s && Tame(a) && '%' !in a && Tame(s) && !Dots(a) && (Dots(s) ==> kind.Spotify?)
  }

  /** The shapes an output path can have; only Spotify can end a second segment in dots. */
  ghost predicate Shaped(kind: Platform, path: string) {
    || (exists s :: OneShape(path, s))
    || (exists a, s :: TwoShape(kind, path, a, s))
  }

  /** Ends in "/." or "/..". */
  predicate EndsInDots(s: string) {
    var n := |s|;
    || (n >= 2 && s[n - 2] == '/' && s[n - 1] == '.')
    || (n >= 3 && s[n - 3] == '/' && s[n - 2] == '.' && s[n - 1] == '.')
  }

  lemma EndsInDotsLast(front: string, s: string)
    requires '/' !in s && s != []
    ensures EndsInDots(front + "/" + s) <==> Dots(s)
  {
  }

  // ---------------------------------------------------------------------
  // Every output path settles
  // ---------------------------------------------------------------------

  /** The path, read back from a URL, gives itself again. */
  ghost predicate Settled(web: Web, kind: Platform, path: string, pathname: string) {
    && PlainPath(path) && Shaped(kind, path)
    && Decode(path) == Some(pathname) && WithoutSlash(pathname) == pathname
    && UrlPath(web, kind, pathname) == Some(path)
  }

  lemma PlainDecodes(s: string)
    requires '%' !in s
    ensures Decode(s) == Some(s)
  {
    DecodePlain(s, "");
    assert s + "" == s;
  }

  /** "/" + run */
  lemma ShortSettles(web: Web, kind: Platform, s: string, extra: string, hi: nat)
    requires kind.X? || kind.Instagram? || kind.Twitch? || kind.GitHub?
    requires Run(s, extra, 1, hi) && extra in {"_", "_.", "-", "_-", "_.-", ".:-"}
    requires ProfilePath(web, kind, s) == Some("/" + s)
    ensures Settled(web, kind, "/" + s, "/" + s)
  {
    RunFacts(s, extra, 1, hi);
    PlainDecodes("/" + s);
    assert ("/" + s)[1..] == s;
    assert OneShape("/" + s, s);
  }

  /** "/@" + run */
  lemma TikTokSettles(web: Web, s: string)
    requires Run(s, "_.", 1, 32)
    ensures Settled(web, TikTok, "/@" + s, "/@" + s)
  {
    RunFacts(s, "_.", 1, 32);
    var path := "/@" + s;
    PlainDecodes(path);
    assert path[2..] == s && path[..2] == "/@";
    assert OneShape(path, "@" + s);
  }

  lemma HandleFacts(web: Web, s: string)
    requires Faithful(web) && Handle(web, s)
    ensures '/' !in s && '@' !in s && s != []
  {
  }

  lemma AtPathIsPlain(code: string)
    requires forall c :: c in code ==> SafeChar(c)
    ensures PlainPath("/@" + code)
  {
  }

  lemma AtPathIsShaped(code: string)
    requires '/' !in code
    ensures Shaped(YouTube, "/@" + code)
  {
    assert "/@" + code == "/" + ("@" + code);
    assert OneShape("/@" + code, "@" + code);
  }

  lemma HandlePath(s: string)
    ensures PlainPath("/@" + Encode(s)) && Shaped(YouTube, "/@" + Encode(s))
  {
    EncodeIsSafe(s);
    assert !SafeChar('/');
    AtPathIsPlain(Encode(s));
    AtPathIsShaped(Encode(s));
  }

  lemma HandleReadsBack(web: Web, s: string)
    requires Handle(web, s) && '/' !in s && '@' !in s
    ensures UrlPath(web, YouTube, "/@" + s) == Some("/@" + Encode(s)) && WithoutSlash("/@" + s) == "/@" + s
  {
    hide Handle;
    var pathname := "/@" + s;
    assert pathname[2..] == s && pathname[..2] == "/@";
    assert s != [] ==> s[0] in s && s[|s| - 1] in s && pathname[|pathname| - 1] == s[|s| - 1];
    if |pathname| >= 9 {
      assert Lower(pathname[..9])[1] == LowerChar('@');
      assert "/channel/"[1] == 'c';
    }
  }

  lemma YouTubeSettles(web: Web, s: string)
    requires Faithful(web) && Handle(web, s)
    ensures Settled(web, YouTube, "/@" + Encode(s), "/@" + s)
  {
    HandleFacts(web, s);
    HandlePath(s);
    HandleReadsBack(web, s);
    hide Faithful, UrlPath, PlainPath, Shaped, Handle;
    DecodePlain("/@", Encode(s));
    RoundTrip(s);
  }

  predicate KnownPrefix(prefix: string) {
    Lower(prefix) in {"/user/", "/id/", "/profiles/", "/channel/", "/profile/"}
  }

  lemma KeptIsPlain(kind: Platform, pathname: string, n: nat, extra: string, lo: nat, hi: nat)
    requires 3 < n < |pathname| && KnownPrefix(pathname[..n])
    requires Run(pathname[n..], extra, lo, hi) && lo >= 1 && extra in {"_", "_.", "-", "_-", "_.-", ".:-"}
    ensures PlainPath(pathname) && WithoutSlash(pathname) == pathname && '%' !in pathname
  {
    var a, s := pathname[1..n - 1], pathname[n..];
    hide Run, KnownPrefix, Tame, PathChar;
    RunFacts(s, extra, lo, hi);
    RunIsNotEmpty(s, extra, lo, hi);
    PrefixFacts(pathname[..n]);
    PrefixAndRun(pathname, n, a, s);
    assert pathname[|pathname| - 1] == s[|s| - 1] && s[|s| - 1] in s;
  }

  lemma KeptIsShaped(kind: Platform, pathname: string, n: nat, extra: string, lo: nat, hi: nat)
    requires 3 < n < |pathname| && KnownPrefix(pathname[..n])
    requires Run(pathname[n..], extra, lo, hi) && lo >= 1 && extra in {"_", "_.", "-", "_-", "_.-", ".:-"}
    requires Dots(pathname[n..]) ==> kind.Spotify?
    ensures Shaped(kind, pathname)
  {
    var a, s := pathname[1..n - 1], pathname[n..];
    hide Run, KnownPrefix, Tame, Dots, PathChar;
    RunFacts(s, extra, lo, hi);
    RunIsNotEmpty(s, extra, lo, hi);
    PrefixFacts(pathname[..n]);
    PrefixAndRun(pathname, n, a, s);
    TameRun(s);
    assert TwoShape(kind, pathname, a, s);
  }

  /** prefix + run, where the prefix is one segment in any case. */
  lemma KeptSettles(web: Web, kind: Platform, pathname: string, n: nat, extra: string, lo: nat, hi: nat)
    requires KeptPath(kind, pathname) && 3 < n < |pathname| && KnownPrefix(pathname[..n])
    requires Run(pathname[n..], extra, lo, hi) && lo >= 1 && extra in {"_", "_.", "-", "_-", "_.-", ".:-"}
    requires Dots(pathname[n..]) ==> kind.Spotify?
    ensures Settled(web, kind, pathname, pathname)
  {
    hide KeptPath, Run, KnownPrefix, Dots, PlainPath, Shaped;
    KeptIsPlain(kind, pathname, n, extra, lo, hi);
    KeptIsShaped(kind, pathname, n, extra, lo, hi);
    PlainDecodes(pathname);
  }

  lemma RunIsNotEmpty(s: string, extra: string, lo: nat, hi: nat)
    requires Run(s, extra, lo, hi) && lo >= 1
    ensures s != []
  {
  }

  lemma TameRun(s: string)
    requires s != [] && '/' !in s && '%' !in s
    ensures Tame(s)
  {
  }

  lemma PrefixAndRun(pathname: string, n: nat, a: string, s: string)
    requires 1 < n < |pathname| && pathname[0] == '/' && pathname[n - 1] == '/'
    requires a == pathname[1..n - 1] && s == pathname[n..]
    requires '%' !in pathname[..n] && '%' !in s
    ensures pathname == "/" + a + "/" + s && '%' !in pathname && '%' !in a
    ensures (forall i :: 0 <= i < n ==> pathname[..n][i] == pathname[i]) && (forall i :: n <= i < |pathname| ==> s[i - n] == pathname[i])
  {
  }

  lemma PrefixFacts(prefix: string)
    requires KnownPrefix(prefix)
    ensures |prefix| > 3 && prefix[0] == '/' && prefix[|prefix| - 1] == '/'
    ensures var a := prefix[1..|prefix| - 1]; Tame(a) && !Dots(a)
    ensures '%' !in prefix && forall i :: 0 <= i < |prefix| ==> PathChar(prefix[i])
  {
    var t := Lower(prefix);
    assert forall i :: 0 <= i < |prefix| ==> t[i] == LowerChar(prefix[i]);
    assert forall c: char :: LowerChar(c) == '/' ==> c == '/';
    assert forall i :: 0 <= i < |t| ==> t[i] == '/' || 'a' <= t[i] <= 'z';
    assert forall i :: 1 <= i < |t| - 1 ==> t[i] != '/';
    var a := prefix[1..|prefix| - 1];
    assert forall i :: 0 <= i < |a| ==> a[i] == prefix[i + 1] && LowerChar(a[i]) == t[i + 1];
    assert LowerChar('.') == '.' && LowerChar(a[0]) == t[1];
  }

  lemma LowerIsLower(s: string)
    requires forall i :: 0 <= i < |s| ==> !('A' <= s[i] <= 'Z')
    ensures Lower(s) == s
  {
  }

  lemma MadeUnder(prefix: string, s: string)
    requires prefix in {"/id/", "/profiles/", "/profile/"}
    ensures var path := prefix + s;
            path[..|prefix|] == prefix && Lower(path[..|prefix|]) == prefix && path[|prefix|..] == s
  {
  }

  lemma DigitsRun(s: string)
    requires SeventeenDigits(s)
    ensures Run(s, "_", 17, 17) && !Dots(s)
  {
  }

  /** A run of at least three characters, or without dots, is no dot segment. */
  lemma RunIsNotDots(s: string, extra: string, lo: nat, hi: nat)
    requires Run(s, extra, lo, hi) && (lo >= 3 || '.' !in extra)
    ensures !Dots(s)
  {
    assert s != [] ==> Alphanumeric(s[0]) || s[0] in extra;
  }

  lemma ProfilePathSettles(web: Web, kind: Platform, input: string) returns (pathname: string)
    requires Faithful(web) && ProfilePath(web, kind, input).Some?
    ensures Settled(web, kind, ProfilePath(web, kind, input).value, pathname)
  {
    hide Faithful, Settled, Run, Handle, KeptPath;
    var s := WithoutAt(input);
    pathname := ProfilePath(web, kind, input).value;
    match kind
    case X => ShortRun(web, kind, s, "_", 15);
    case Instagram => ShortRun(web, kind, s, "_.", 30);
    case Twitch => ShortRun(web, kind, s, "_", 25);
    case GitHub => ShortRun(web, kind, s, "-", 39);
    case TikTok => TikTokSettles(web, s);
    case YouTube =>
      YouTubeSettles(web, s);
      pathname := "/@" + s;
    case Bluesky => MadeSettles(web, kind, "/profile/", s);
    case Steam =>
      if SeventeenDigits(s) {
        MadeSettles(web, kind, "/profiles/", s);
      } else {
        MadeSettles(web, kind, "/id/", s);
      }
  }

  lemma ShortRun(web: Web, kind: Platform, s: string, extra: string, hi: nat)
    requires kind.X? || kind.Instagram? || kind.Twitch? || kind.GitHub?
    requires Run(s, extra, 1, hi) && extra in {"_", "_.", "-"}
    requires kind.X? ==> extra == "_" && hi == 15 && !ReservedOnX(s)
    requires kind.Instagram? ==> extra == "_." && hi == 30
    requires kind.Twitch? ==> extra == "_" && hi == 25
    requires kind.GitHub? ==> extra == "-" && hi == 39
    ensures Settled(web, kind, "/" + s, "/" + s)
  {
    RunFacts(s, extra, 1, hi);
    assert s[0] in s && WithoutAt(s) == s;
    hide Run, Settled, ReservedOnX;
    ShortSettles(web, kind, s, extra, hi);
  }

  lemma MadeSettles(web: Web, kind: Platform, prefix: string, s: string)
    requires
      || (kind.Bluesky? && prefix == "/profile/" && Run(s, ".:-", 3, 253))
      || (kind.Steam? && prefix == "/profiles/" && SeventeenDigits(s))
      || (kind.Steam? && prefix == "/id/" && Run(s, "_-", 1, 64))
    ensures Settled(web, kind, prefix + s, prefix + s)
  {
    MadeUnder(prefix, s);
    assert prefix == "/profiles/" ==> |prefix| == 10 && |prefix + s| == 27;
    KeptPathSettles(web, kind, prefix + s);
  }

  lemma KeptPathSettles(web: Web, kind: Platform, pathname: string)
    requires KeptPath(kind, pathname)
    ensures Settled(web, kind, pathname, pathname)
  {
    hide Settled;
    match kind
    case Spotify => KeptSettles(web, kind, pathname, 6, "_.-", 1, 128);
    case YouTube =>
      RunIsNotDots(pathname[9..], "_-", 1, 64);
      KeptSettles(web, kind, pathname, 9, "_-", 1, 64);
    case Bluesky =>
      RunIsNotDots(pathname[9..], ".:-", 3, 253);
      KeptSettles(web, kind, pathname, 9, ".:-", 3, 253);
    case Steam =>
      if Under(pathname, "/id/", "_-", 1, 64) {
        RunIsNotDots(pathname[4..], "_-", 1, 64);
        KeptSettles(web, kind, pathname, 4, "_-", 1, 64);
      } else {
        DigitsRun(pathname[10..]);
        KeptSettles(web, kind, pathname, 10, "_", 17, 17);
      }
  }

  lemma UrlPathSettles(web: Web, kind: Platform, given: string) returns (pathname: string)
    requires Faithful(web) && UrlPath(web, kind, given).Some?
    ensures Settled(web, kind, UrlPath(web, kind, given).value, pathname)
  {
    hide Settled, Faithful, ProfilePath, KeptPath;
    if KeptPath(kind, given) {
      KeptPathSettles(web, kind, given);
      pathname := given;
    } else if kind.YouTube? || kind.TikTok? {
      pathname := ProfilePathSettles(web, kind, given[2..]);
    } else {
      pathname := ProfilePathSettles(web, kind, given[1..]);
    }
  }

  // ---------------------------------------------------------------------
  // The second normalisation
  // ---------------------------------------------------------------------

  lemma HostCharsPlain(kind: Platform)
    ensures forall i :: 0 <= i < |Host(kind)| ==> Alphanumeric(Host(kind)[i]) || Host(kind)[i] == '.'
  {
  }

  lemma HostCharsLower(kind: Platform)
    ensures forall i :: 0 <= i < |Host(kind)| ==> !('A' <= Host(kind)[i] <= 'Z')
  {
  }

  lemma HostFacts(kind: Platform)
    requires Host(kind) != ""
    ensures forall i :: 0 <= i < |Host(kind)| ==> PathChar(Host(kind)[i])
    ensures WithoutWww(Lower(Host(kind))) == Host(kind)
  {
    assert Host(kind)[0] != 'w';
    hide Host;
    HostCharsPlain(kind);
    HostCharsLower(kind);
    LowerIsLower(Host(kind));
    var host := Host(kind);
    if |host| >= 4 {
      assert host[..4][0] == host[0] && "www."[0] == 'w';
    }
  }

  /** A canonical link passes the checks on the text untouched. */
  lemma CanonicalIsClean(kind: Platform, path: string)
    requires Host(kind) != "" && PlainPath(path)
    ensures var v := Canonical(kind, path);
            Clean(v) && Trim(v) == v
  {
    HostFacts(kind);
    var v, front := Canonical(kind, path), "https://" + Host(kind);
    forall i | 0 <= i < |v| ensures PathChar(v[i]) {
      if i < 8 {
        assert v[i] == "https://"[i];
      } else if i < |front| {
        assert v[i] == Host(kind)[i - 8];
      } else {
        assert v[i] == path[i - |front|];
      }
    }
    forall i | 0 <= i < |v| ensures !IsSpace(v[i]) && !IsControl(v[i]) {
      PathCharFacts(v[i]);
    }
    assert v[5] == ':' && v[6] == '/' && v[7] == '/';
    NothingToTrim(v);
  }

  lemma NormalizeClean(web: Web, kind: Platform, v: string)
    requires Clean(v) && Trim(v) == v && !kind.EpicGames?
    ensures Normalize(web, kind, v) == if Units(v) > MAX_UNITS then None else FromUrl(web, kind, web.parse(v))
  {
  }

  /** The end of FromUrl, once the host is right. */
  function FromPathname(web: Web, kind: Platform, raw: string): Option<string> {
    var pathname := Decode(raw);
    if pathname.None? then None
    else
      var path := UrlPath(web, kind, WithoutSlash(pathname.value));
      if path.Some? && Units(Canonical(kind, path.value)) <= MAX_UNITS then Some(Canonical(kind, path.value)) else None
  }

  lemma OwnHost(web: Web, kind: Platform, url: Url)
    requires PlainHttp(url) && url.hostname == Host(kind) && Host(kind) != ""
    ensures FromUrl(web, kind, Some(url)) == FromPathname(web, kind, url.pathname)
  {
    HostFacts(kind);
    assert !kind.Website?;
    hide Host, UrlPath, Decode, Units, Canonical, Lower, WithoutWww, PlainHttp;
  }

  lemma CanonicalAgain(web: Web, kind: Platform, path: string)
    requires Faithful(web) && Host(kind) != "" && PlainPath(path)
    ensures Normalize(web, kind, Canonical(kind, path)) ==
            if Units(Canonical(kind, path)) > MAX_UNITS then None else FromPathname(web, kind, Resolved(path))
  {
    assert ParsesCanonical(web, kind, path) && !kind.EpicGames?;
    CanonicalIsClean(kind, path);
    hide Faithful, Canonical, Host, Clean, FromUrl, FromPathname, Normalize, Resolved, PlainHttp;
    NormalizeClean(web, kind, Canonical(kind, path));
    OwnHost(web, kind, web.parse(Canonical(kind, path)).value);
  }

  lemma ShapeResolves(kind: Platform, path: string)
    requires Shaped(kind, path)
    ensures !EndsInDots(path) ==> Resolved(path) == path
    ensures EndsInDots(path) ==> Resolved(path) == "/" || (kind.Spotify? && exists a :: Tame(a) && '%' !in a && Resolved(path) == "/" + a + "/")
  {
    hide Resolved, EndsInDots;
    if s :| OneShape(path, s) {
      ResolvedOne(s);
      EndsInDotsLast("", s);
      assert "" + "/" + s == path;
    } else {
      var a, s :| TwoShape(kind, path, a, s);
      ResolvedTwo(a, s);
      EndsInDotsLast("/" + a, s);
    }
  }

  /** A path that lost its dot segments is no profile. */
  lemma UndottedIsRefused(web: Web, kind: Platform, raw: string)
    requires raw == "/" || (kind.Spotify? && exists a :: Tame(a) && '%' !in a && raw == "/" + a + "/")
    ensures FromPathname(web, kind, raw) == None
  {
    PlainDecodes(raw);
    if raw == "/" {
      assert WithoutSlash(raw) == "";
    } else {
      var a :| Tame(a) && '%' !in a && raw == "/" + a + "/";
      assert WithoutSlash(raw) == "/" + a;
      if |a| >= 5 {
        assert ("/" + a)[5] == a[4] && a[4] in a;
        assert Lower(("/" + a)[..6])[5] == LowerChar(a[4]) && "/user/"[5] == '/';
      }
    }
  }

  lemma SettledAgain(web: Web, kind: Platform, path: string, pathname: string)
    requires Faithful(web) && Host(kind) != "" && Settled(web, kind, path, pathname)
    ensures var v := Canonical(kind, path);
            Normalize(web, kind, v) == if Units(v) <= MAX_UNITS && !EndsInDots(path) then Some(v) else None
  {
    CanonicalAgain(web, kind, path);
    ShapeResolves(kind, path);
    hide Faithful, Canonical, Host, Normalize, Resolved, EndsInDots, UrlPath, Shaped, PlainPath;
    if EndsInDots(path) {
      UndottedIsRefused(web, kind, Resolved(path));
    }
  }

  lemma EndAfterFront(front: string, path: string)
    requires path != [] && path[0] == '/'
    ensures EndsInDots(front + path) <==> EndsInDots(path)
  {
  }

  // ---------------------------------------------------------------------
  // The fixed point
  // ---------------------------------------------------------------------

  /** Every accepted link of a hosted platform is a canonical URL of a settled path. */
  lemma AcceptedSettles(web: Web, kind: Platform, value: string) returns (path: string, pathname: string)
    requires Faithful(web) && Host(kind) != ""
    ensures Normalize(web, kind, value).Some? ==>
              Normalize(web, kind, value) == Some(Canonical(kind, path)) && Settled(web, kind, path, pathname)
  {
    var text := Trim(value);
    hide Faithful, Settled, UrlPath, ProfilePath, Canonical, HasScheme, Trim, Units, FromUrl, IsSpace, IsControl;
    path, pathname := "", "";
    if Normalize(web, kind, value).None? {
      return;
    }
    if !HasScheme(text) && ProfilePath(web, kind, text).Some? {
      path := ProfilePath(web, kind, text).value;
      pathname := ProfilePathSettles(web, kind, text);
    } else {
      var given := CameFromPath(web, kind, web.parse(if HasScheme(text) then text else "https://" + text));
      path := UrlPath(web, kind, given).value;
      pathname := UrlPathSettles(web, kind, given);
    }
  }

  lemma CameFromPath(web: Web, kind: Platform, url: Option<Url>) returns (given: string)
    requires Host(kind) != ""
    ensures FromUrl(web, kind, url).Some? ==>
              UrlPath(web, kind, given).Some? && FromUrl(web, kind, url) == Some(Canonical(kind, UrlPath(web, kind, given).value))
  {
    hide UrlPath, Canonical, Units, Lower, WithoutWww;
    given := if FromUrl(web, kind, url).Some? then WithoutSlash(Decode(url.value.pathname).value) else "";
  }

  function Source(value: string): string {
    if HasScheme(Trim(value)) then Trim(value) else "https://" + Trim(value)
  }

  lemma WebsiteIsFromUrl(web: Web, value: string)
    ensures Normalize(web, Website, value).Some? ==>
              Normalize(web, Website, value) == FromUrl(web, Website, web.parse(Source(value)))
  {
  }

  lemma SecuredAgain(web: Web, url: Url)
    requires FromUrl(web, Website, Some(url)).Some?
    requires var s := web.secured(url); PlainHttp(s) && s.hostname == url.hostname && web.secured(s) == s
    ensures var s := web.secured(url);
            && FromUrl(web, Website, Some(url)) == Some(s.href) && FromUrl(web, Website, Some(s)) == Some(s.href)
            && Units(s.href) <= MAX_UNITS
  {
  }

  lemma FromUrlNeedsHttp(web: Web, url: Option<Url>)
    requires FromUrl(web, Website, url).Some?
    ensures url.Some? && PlainHttp(url.value)
  {
  }

  lemma WebsiteAgain(web: Web, value: string)
    requires Faithful(web)
    ensures Normalize(web, Website, value).Some? ==>
              Normalize(web, Website, Normalize(web, Website, value).value) == Normalize(web, Website, value)
  {
    assert SerialisesBack(web, Source(value));
    hide Faithful, Normalize, FromUrl, Source, Units, PlainHttp;
    var url := web.parse(Source(value));
    WebsiteIsFromUrl(web, value);
    if Normalize(web, Website, value).Some? {
      FromUrlNeedsHttp(web, url);
      var s := web.secured(url.value);
      SecuredAgain(web, url.value);
      NothingToTrimIn(s.href);
      NormalizeClean(web, Website, s.href);
    }
  }

  lemma NothingToTrimIn(s: string)
    requires Clean(s)
    ensures Trim(s) == s
  {
  }

  lemma EpicAgain(web: Web, value: string)
    ensures Normalize(web, EpicGames, value).Some? ==>
              Normalize(web, EpicGames, Normalize(web, EpicGames, value).value) == Normalize(web, EpicGames, value)
  {
    TrimTwice(value);
  }

  /** A dot segment that the URL parser will remove; display names and websites are outside the rule. */
  predicate LosesDots(kind: Platform, value: string) {
    Host(kind) != "" && EndsInDots(value)
  }

  /**
   An accepted value normalises to itself exactly when it has at most 512 UTF-16
   units and does not end in a dot segment; otherwise it is refused the second
   time.
   */
  lemma FixedPointIff(web: Web, kind: Platform, value: string)
    requires Faithful(web)
    ensures var accepted := Normalize(web, kind, value);
            accepted.Some? ==>
              var v := accepted.value;
              && (Normalize(web, kind, v) == Some(v) <==> Units(v) <= MAX_UNITS && !LosesDots(kind, v))
              && (Normalize(web, kind, v) == Some(v) || Normalize(web, kind, v) == None)
  {
    assert Host(kind) == "" <==> kind.EpicGames? || kind.Website?;
    hide Faithful, Normalize, EndsInDots, Units, Host;
    if kind.EpicGames? {
      EpicAgain(web, value);
    } else if kind.Website? {
      WebsiteAgain(web, value);
    } else {
      HostedAgain(web, kind, value);
    }
  }

  lemma HostedAgain(web: Web, kind: Platform, value: string)
    requires Faithful(web) && Host(kind) != ""
    ensures var accepted := Normalize(web, kind, value);
            accepted.Some? ==>
              var v := accepted.value;
              Normalize(web, kind, v) == if Units(v) <= MAX_UNITS && !EndsInDots(v) then Some(v) else None
  {
    if Normalize(web, kind, value).Some? {
      hide Faithful, Normalize, Canonical, Settled, EndsInDots, Units, Host;
      var path, pathname := AcceptedSettles(web, kind, value);
      SettledAgain(web, kind, path, pathname);
      CanonicalEnd(web, kind, path, pathname);
    }
  }

  lemma CanonicalEnd(web: Web, kind: Platform, path: string, pathname: string)
    requires Settled(web, kind, path, pathname)
    ensures EndsInDots(Canonical(kind, path)) <==> EndsInDots(path)
  {
    SettledStarts(web, kind, path, pathname);
    hide Settled, EndsInDots, Host;
    EndAfterFront("https://" + Host(kind), path);
  }

  lemma SettledStarts(web: Web, kind: Platform, path: string, pathname: string)
    requires Settled(web, kind, path, pathname)
    ensures path != [] && path[0] == '/'
  {
  }

  lemma DotIsAccepted(web: Web)
    ensures Normalize(web, Instagram, ".") == Some(Canonical(Instagram, "/."))
  {
    var dot := ".";
    assert !IsSpace(dot[0]) && !IsControl(dot[0]);
    NothingToTrim(dot);
    assert dot[..0] == "" && Units("") == 0 && Units(dot) == 1;
    assert WithoutAt(dot) == dot && Run(dot, "_.", 1, 30);
    assert "/" + dot == "/.";
    assert ProfilePath(web, Instagram, dot) == Some("/.");
  }

  /** The Instagram handle "." is accepted as https://instagram.com/. and refused the second time. */
  lemma InstagramDotIsLost(web: Web)
    requires Faithful(web)
    ensures var v := Canonical(Instagram, "/.");
            Normalize(web, Instagram, ".") == Some(v) && Normalize(web, Instagram, v) == None
  {
    hide Faithful, Normalize;
    DotIsAccepted(web);
    EndAfterFront("https://" + Host(Instagram), "/.");
    FixedPointIff(web, Instagram, ".");
  }

  // ---------------------------------------------------------------------
  // Lists
  // ---------------------------------------------------------------------

  datatype Link = Link(platform: Platform, value: string)

  /** One element of the request's array; Junk is anything but an object with a known platform and a string. */
  datatype Item = Junk | Given(platform: Platform, value: string)

  datatype Input = Null | NotAList | Items(items: seq<Item>)

  function NormalizeItem(web: Web, item: Item): Option<Link> {
    if item.Junk? || Normalize(web, item.platform, item.value).None? then None
    else Some(Link(item.platform, Normalize(web, item.platform, item.value).value))
  }

  function Platforms(links: seq<Link>): set<Platform> {
    set link | link in links :: link.platform
  }

  /** One more link, unless something was refused or its platform was seen. */
  function Extended(before: Option<seq<Link>>, link: Option<Link>): Option<seq<Link>> {
    if before.None? || link.None? || link.value.platform in Platforms(before.value) then None
    else Some(before.value + [link.value])
  }

  function NormalizeItems(web: Web, items: seq<Item>): Option<seq<Link>> {
    if items == [] then Some([])
    else Extended(NormalizeItems(web, items[..|items| - 1]), NormalizeItem(web, items[|items| - 1]))
  }

  lemma OneMoreItem(web: Web, items: seq<Item>, i: nat)
    requires i < |items|
    ensures NormalizeItems(web, items[..i + 1]) == Extended(NormalizeItems(web, items[..i]), NormalizeItem(web, items[i]))
  {
    assert items[..i + 1][..i] == items[..i];
  }

  lemma PlatformsOfMore(links: seq<Link>, link: Link)
    ensures Platforms(links + [link]) == Platforms(links) + {link.platform}
  {
  }

  function NormalizeInput(web: Web, input: Input): Option<seq<Link>> {
    match input
    case Null => Some([])
    case NotAList => None
    case Items(items) => if |items| > PLATFORM_COUNT then None else NormalizeItems(web, items)
  }

  method NormalizeProfileSocialLinks(web: Web, input: Input) returns (result: Option<seq<Link>>)
    ensures result == NormalizeInput(web, input)
  {
    if input.Null? {
      return Some([]);
    }
    if input.NotAList? || |input.items| > PLATFORM_COUNT {
      return None;
    }
    assert NormalizeItems(web, []) == Some([]) && Platforms([]) == {};
    hide NormalizeItem, NormalizeItems, Platforms;
    var links: seq<Link> := [];
    var seen: set<Platform> := {};
    assert input.items[..0] == [];
    for i := 0 to |input.items|
      invariant NormalizeItems(web, input.items[..i]) == Some(links) && seen == Platforms(links)
    {
      OneMoreItem(web, input.items, i);
      var link := NormalizeItem(web, input.items[i]);
      if link.None? || link.value.platform in seen {
        RefusedPrefix(web, input.items, i + 1);
        return None;
      }
      PlatformsOfMore(links, link.value);
      seen := seen + {link.value.platform};
      links := links + [link.value];
    }
    assert input.items[..|input.items|] == input.items;
    return Some(links);
  }

  lemma {:induction false} RefusedPrefix(web: Web, items: seq<Item>, n: nat)
    requires n <= |items| && NormalizeItems(web, items[..n]).None?
    ensures NormalizeItems(web, items).None?
  {
    if n == |items| {
      assert items[..n] == items;
    } else {
      assert items[..|items| - 1][..n] == items[..n];
      RefusedPrefix(web, items[..|items| - 1], n);
    }
  }

  function AsItems(links: seq<Link>): seq<Item> {
    seq(|links|, i requires 0 <= i < |links| => Given(links[i].platform, links[i].value))
  }

  predicate Stable(link: Link) {
    Units(link.value) <= MAX_UNITS && !LosesDots(link.platform, link.value)
  }

  /** Accepted links come from accepted items, one each, on different platforms. */
  lemma {:induction false} LinksAreAccepted(web: Web, items: seq<Item>)
    requires NormalizeItems(web, items).Some?
    ensures var links := NormalizeItems(web, items).value;
            && |links| == |items|
            && (forall i :: 0 <= i < |links| ==> NormalizeItem(web, items[i]) == Some(links[i]))
            && (forall i, j :: 0 <= i < j < |links| ==> links[i].platform != links[j].platform)
  {
    hide NormalizeItem;
    if items != [] {
      var n := |items| - 1;
      LinksAreAccepted(web, items[..n]);
      var before := NormalizeItems(web, items[..n]).value;
      assert forall i :: 0 <= i < n ==> before[i].platform in Platforms(before);
    }
  }

  lemma {:induction false} ItemsAgain(web: Web, links: seq<Link>)
    requires forall i, j :: 0 <= i < j < |links| ==> links[i].platform != links[j].platform
    requires forall i :: 0 <= i < |links| ==>
               NormalizeItem(web, AsItems(links)[i]) == if Stable(links[i]) then Some(links[i]) else None
    ensures NormalizeItems(web, AsItems(links)) ==
            if forall i :: 0 <= i < |links| ==> Stable(links[i]) then Some(links) else None
  {
    hide Stable, NormalizeItem;
    if links != [] {
      var n := |links| - 1;
      assert AsItems(links)[..n] == AsItems(links[..n]);
      ItemsAgain(web, links[..n]);
      assert links[..n] + [links[n]] == links;
      assert forall link :: link in links[..n] ==> link.platform != links[n].platform;
    }
  }

  /**
   An accepted list normalises to itself exactly when each of its links does;
   otherwise the whole list is refused the second time.
   */
  lemma ListFixedPointIff(web: Web, input: Input, links: seq<Link>)
    requires Faithful(web) && NormalizeInput(web, input) == Some(links)
    ensures NormalizeInput(web, Items(AsItems(links))) ==
            if forall i :: 0 <= i < |links| ==> Stable(links[i]) then Some(links) else None
  {
    hide Faithful, Stable;
    if input.Items? {
      LinksAreAccepted(web, input.items);
      forall i | 0 <= i < |links|
        ensures NormalizeItem(web, AsItems(links)[i]) == if Stable(links[i]) then Some(links[i]) else None
      {
        ItemAgain(web, input.items[i]);
      }
    }
    ItemsAgain(web, links);
  }

  lemma ItemAgain(web: Web, item: Item)
    requires Faithful(web)
    ensures NormalizeItem(web, item).Some? ==>
              var link := NormalizeItem(web, item).value;
              NormalizeItem(web, Given(link.platform, link.value)) == if Stable(link) then Some(link) else None
  {
    hide Faithful, Normalize, LosesDots, Units;
    if item.Given? {
      FixedPointIff(web, item.platform, item.value);
    }
  }
}
