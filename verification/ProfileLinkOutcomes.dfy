/**
 Which profile links are accepted and what they become, platform by platform
 (packages/shared/src/profileLinks.ts, lines 13-89).
 */
module ProfileLinkOutcomes {
  import opened Totals
  import opened PercentEncoding
  import opened ProfileLinks

  // ---------------------------------------------------------------------
  // Names
  // ---------------------------------------------------------------------

  /** Letters, digits and the characters of `extra`, and no fewer than `lo` or more than `hi` of them. */
  predicate Word(s: string, extra: set<char>, lo: nat, hi: nat) {
    && lo <= |s| <= hi
    && forall i :: 0 <= i < |s| ==> 'a' <= s[i] <= 'z' || 'A' <= s[i] <= 'Z' || '0' <= s[i] <= '9' || s[i] in extra
  }

  /** A name, without the @, that the platform's short form accepts. */
  predicate NameOn(web: Web, kind: Platform, s: string) {
    match kind
    case X => Word(s, {'_'}, 1, 15) && !ReservedOnX(s)
    case Instagram => Word(s, {'_', '.'}, 1, 30)
    case Twitch => Word(s, {'_'}, 1, 25)
    case GitHub => Word(s, {'-'}, 1, 39)
    case TikTok => Word(s, {'_', '.'}, 1, 32)
    case YouTube => 1 <= |s| <= 100 && forall i :: 0 <= i < |s| ==> web.letterOrNumber(s[i]) || s[i] in {'_', '.', '-'}
    case Bluesky => Word(s, {'.', ':', '-'}, 3, 253)
    case Steam => Word(s, {'_', '-'}, 1, 64)
    case _ => false
  }

  predicate IsSteamNumber(s: string) {
    |s| == 17 && forall i :: 0 <= i < 17 ==> '0' <= s[i] <= '9'
  }

  /** What stands before the name in its link. */
  function FrontOf(kind: Platform, s: string): string {
    match kind
    case X => "https://" + "x.com" + "/"
    case Instagram => "https://" + "instagram.com" + "/"
    case Twitch => "https://" + "twitch.tv" + "/"
    case GitHub => "https://" + "github.com" + "/"
    case TikTok => "https://" + "tiktok.com" + "/@"
    case YouTube => "https://" + "youtube.com" + "/@"
    case Bluesky => "https://" + "bsky.app" + "/profile/"
    case Steam => "https://" + "steamcommunity.com" + if IsSteamNumber(s) then "/profiles/" else "/id/"
    case _ => ""
  }

  /** The link a name stands for. */
  function LinkOf(kind: Platform, s: string): string {
    FrontOf(kind, s) + if kind.YouTube? then Encode(s) else s
  }

  /** A short form is taken exactly for a name of the platform, with or without an @. */
  lemma ShortFormIff(web: Web, kind: Platform, s: string)
    requires s == "" || s[0] != '@'
    ensures ProfilePath(web, kind, s).Some? <==> NameOn(web, kind, s)
    ensures ProfilePath(web, kind, "@" + s) == ProfilePath(web, kind, s)
  {
    hide Encode, ReservedOnX;
    assert ("@" + s)[1..] == s;
  }

  /** The path is what stands between the host and the name, then the name. */
  lemma PathOfName(web: Web, kind: Platform, s: string) returns (prefix: string)
    requires (s == "" || s[0] != '@') && NameOn(web, kind, s)
    ensures ProfilePath(web, kind, s) == Some(prefix + if kind.YouTube? then Encode(s) else s)
    ensures "https://" + Host(kind) + prefix == FrontOf(kind, s)
  {
    hide Encode, ReservedOnX;
    match kind
    case TikTok => prefix := "/@";
    case YouTube => prefix := "/@";
    case Bluesky => prefix := "/profile/";
    case Steam => prefix := if IsSteamNumber(s) then "/profiles/" else "/id/";
    case _ => prefix := "/";
  }

  lemma Regrouped(front: string, host: string, prefix: string, s: string)
    ensures front + host + (prefix + s) == front + host + prefix + s
  {
  }

  lemma NameBecomesLink(web: Web, kind: Platform, s: string)
    requires (s == "" || s[0] != '@') && NameOn(web, kind, s)
    ensures ProfilePath(web, kind, s).Some? && Canonical(kind, ProfilePath(web, kind, s).value) == LinkOf(kind, s)
  {
    var prefix := PathOfName(web, kind, s);
    hide ProfilePath, NameOn, FrontOf, Host, Encode;
    Regrouped("https://", Host(kind), prefix, if kind.YouTube? then Encode(s) else s);
  }

  // ---------------------------------------------------------------------
  // Names as they are typed
  // ---------------------------------------------------------------------

  /** Characters of a name are neither spaces nor control characters, and none of them is a slash or an @. */
  lemma NameFacts(web: Web, kind: Platform, s: string)
    requires Faithful(web) && NameOn(web, kind, s)
    ensures 1 <= |s| <= 253
    ensures forall i :: 0 <= i < |s| ==> !IsSpace(s[i]) && !IsControl(s[i]) && s[i] != '/' && s[i] != '@'
  {
    hide ReservedOnX;
    assert kind.YouTube? ==> forall i :: 0 <= i < |s| ==> s[i] as int < 128 ==> Alphanumeric(s[i]) || s[i] in {'_', '.', '-'};
  }

  lemma {:induction false} UnitsAtMost(s: string)
    ensures |s| <= Units(s) <= 2 * |s|
  {
    if s != [] {
      UnitsAtMost(s[..|s| - 1]);
    }
  }

  lemma TakenAsTyped(web: Web, kind: Platform, text: string)
    requires text != "" && Trim(text) == text && Units(text) <= 512 && !kind.EpicGames? && !kind.Website?
    requires forall i :: 0 <= i < |text| ==> !IsSpace(text[i]) && !IsControl(text[i]) && text[i] != '/'
    requires ProfilePath(web, kind, text).Some?
    ensures Normalize(web, kind, text) == Some(Canonical(kind, ProfilePath(web, kind, text).value))
  {
    hide ProfilePath, Canonical, FromUrl, Trim, Units, IsSpace, IsControl;
    assert !HasScheme(text);
  }

  lemma NameIsTyped(s: string)
    requires s != "" && |s| <= 253 && forall i :: 0 <= i < |s| ==> !IsSpace(s[i]) && !IsControl(s[i]) && s[i] != '/' && s[i] != '@'
    ensures Trim(s) == s && Trim("@" + s) == "@" + s && Units(s) <= 512 && Units("@" + s) <= 512
    ensures forall i :: 0 <= i < |"@" + s| ==> !IsSpace(("@" + s)[i]) && !IsControl(("@" + s)[i]) && ("@" + s)[i] != '/'
  {
    UnitsAtMost(s);
    UnitsAtMost("@" + s);
    NothingToTrim(s);
    NothingToTrim("@" + s);
  }

  /** A name, with or without an @, is accepted and becomes its link. */
  lemma NameNormalizes(web: Web, kind: Platform, s: string)
    requires Faithful(web) && NameOn(web, kind, s)
    ensures Normalize(web, kind, s) == Some(LinkOf(kind, s))
    ensures Normalize(web, kind, "@" + s) == Some(LinkOf(kind, s))
  {
    assert !kind.EpicGames? && !kind.Website?;
    NameFacts(web, kind, s);
    ShortFormIff(web, kind, s);
    NameBecomesLink(web, kind, s);
    NameIsTyped(s);
    hide Faithful, NameOn, ProfilePath, Canonical, LinkOf, Normalize, Units, Trim, IsSpace, IsControl;
    TakenAsTyped(web, kind, s);
    TakenAsTyped(web, kind, "@" + s);
  }

  /** Spaces around a value make no difference. */
  lemma PaddingIsInvisible(web: Web, kind: Platform, before: string, value: string, after: string)
    requires forall i :: 0 <= i < |before| ==> IsSpace(before[i])
    requires forall i :: 0 <= i < |after| ==> IsSpace(after[i])
    ensures Normalize(web, kind, before + value + after) == Normalize(web, kind, value)
  {
    PaddingIsTrimmed(before, value, after);
    OnlyTrimmedMatters(web, kind, before + value + after, value);
  }

  lemma OnlyTrimmedMatters(web: Web, kind: Platform, value: string, other: string)
    requires Trim(value) == Trim(other)
    ensures Normalize(web, kind, value) == Normalize(web, kind, other)
  {
    hide Trim, Units, IsSpace, IsControl, HasScheme, ProfilePath, FromUrl, EpicName, Canonical;
  }

  lemma PaddingIsTrimmed(before: string, value: string, after: string)
    requires forall i :: 0 <= i < |before| ==> IsSpace(before[i])
    requires forall i :: 0 <= i < |after| ==> IsSpace(after[i])
    ensures Trim(before + value + after) == Trim(value)
  {
    StartTrimmed(before, value + after);
    assert before + (value + after) == before + value + after;
    StartKept(value, after);
    hide TrimStart, TrimEnd, IsSpace;
    if TrimStart(value) != "" {
      EndTrimmed(TrimStart(value), after);
    }
  }

  lemma {:induction false} StartTrimmed(before: string, s: string)
    requires forall i :: 0 <= i < |before| ==> IsSpace(before[i])
    ensures TrimStart(before + s) == TrimStart(s)
  {
    if before != "" {
      StartTrimmed(before[1..], s);
      assert IsSpace(before[0]);
      hide IsSpace;
      assert (before + s)[0] == before[0] && (before + s)[1..] == before[1..] + s;
    } else {
      assert before + s == s;
    }
  }

  lemma {:induction false} EndTrimmed(s: string, after: string)
    requires forall i :: 0 <= i < |after| ==> IsSpace(after[i])
    ensures TrimEnd(s + after) == TrimEnd(s)
  {
    if after != "" {
      var n := |after| - 1;
      var whole := s + after;
      EndTrimmed(s, after[..n]);
      assert IsSpace(after[n]);
      hide IsSpace;
      assert whole[|whole| - 1] == after[n] && whole[..|whole| - 1] == s + after[..n];
    } else {
      assert s + after == s;
    }
  }

  lemma {:induction false} StartKept(s: string, after: string)
    requires forall i :: 0 <= i < |after| ==> IsSpace(after[i])
    ensures TrimStart(s + after) == if TrimStart(s) == "" then "" else TrimStart(s) + after
    ensures TrimEnd("") == ""
  {
    if s == "" {
      StartTrimmed(after, "");
      assert "" + after == after + "";
    } else if IsSpace(s[0]) {
      StartKept(s[1..], after);
      assert (s + after)[1..] == s[1..] + after;
    }
  }

  // ---------------------------------------------------------------------
  // Links as they are pasted
  // ---------------------------------------------------------------------

  /** The platform's own host, with or without www; X answers to its old name too. */
  predicate HostOf(kind: Platform, host: string) {
    || host == Host(kind) || host == "www." + Host(kind)
    || (kind.X? && (host == "twitter.com" || host == "www.twitter.com"))
  }

  lemma WwwIsDropped(host: string, name: string)
    requires name != "" && (|name| < 4 || name[..4] != "www.")
    ensures WithoutWww(host) == name <==> host == name || host == "www." + name
  {
    if |host| >= 4 && host[..4] == "www." {
      assert host == "www." + host[4..];
    }
    assert ("www." + name)[4..] == name && ("www." + name)[..4] == "www.";
  }

  lemma HostIsRead(kind: Platform, host: string)
    requires Host(kind) != ""
    ensures HostOf(kind, host) <==> WithoutWww(host) == Host(kind) || (kind.X? && WithoutWww(host) == "twitter.com")
  {
    NoWww(kind);
    hide Host, WithoutWww;
    WwwIsDropped(host, Host(kind));
    WwwIsDropped(host, "twitter.com");
    assert "www." + "twitter.com" == "www.twitter.com";
  }

  lemma NoWww(kind: Platform)
    ensures |Host(kind)| < 4 || Host(kind)[..4] != "www."
    ensures "twitter.com"[..4] != "www."
  {
    assert Host(kind) != "" ==> Host(kind)[0] != 'w';
    assert |Host(kind)| >= 4 ==> Host(kind)[..4][0] == Host(kind)[0];
    assert "twitter.com"[..4][0] == 't';
  }

  /** A link to a name's page, whatever of http, www and a final slash it carries, becomes the name's link if that is not too long. */
  lemma PastedLinkIsRead(web: Web, kind: Platform, s: string, url: Url, tail: string)
    requires Faithful(web) && NameOn(web, kind, s) && HostOf(kind, Lower(url.hostname))
    requires url.protocol in {"https:", "http:"} && url.username == "" && url.password == "" && url.port == ""
    requires "https://" + Host(kind) + url.pathname == LinkOf(kind, s) + tail && (tail == "" || (tail == "/" && !kind.YouTube?))
    ensures FromUrl(web, kind, Some(url)) == if Units(LinkOf(kind, s)) <= 512 then Some(LinkOf(kind, s)) else None
  {
    NameFacts(web, kind, s);
    assert !kind.Website? && Host(kind) != "";
    NameBecomesLink(web, kind, s);
    HostIsRead(kind, Lower(url.hostname));
    var path := ProfilePath(web, kind, s).value;
    hide Lower, HostOf, Units, UrlPath, Decode, Host, NameOn, LinkOf, ProfilePath, WithoutSlash, WithoutWww, Faithful, IsSpace, IsControl;
    assert url.pathname == path + tail by {
      SameAfterFront("https://" + Host(kind), url.pathname, path, tail);
    }
    PathIsRead(web, kind, s, tail);
  }

  lemma SameAfterFront(front: string, whole: string, path: string, tail: string)
    requires front + whole == front + path + tail
    ensures whole == path + tail
  {
    assert (front + whole)[|front|..] == whole;
    assert (front + path + tail)[|front|..] == path + tail;
  }

  lemma PathIsRead(web: Web, kind: Platform, s: string, tail: string)
    requires Faithful(web) && ProfilePath(web, kind, s).Some? && (tail == "" || (tail == "/" && !kind.YouTube?))
    ensures var path, read := ProfilePath(web, kind, s).value, Decode(ProfilePath(web, kind, s).value + tail);
            read.Some? && UrlPath(web, kind, WithoutSlash(read.value)) == Some(path)
  {
    var path := ProfilePath(web, kind, s).value;
    var pathname := ProfilePathSettles(web, kind, s);
    if tail == "/" {
      NoPercent(web, kind, s);
      PlainDecodes(path);
      PlainDecodes(path + tail);
      assert WithoutSlash(path + tail) == path;
    } else {
      assert path + tail == path;
    }
  }

  lemma NoPercent(web: Web, kind: Platform, s: string)
    requires ProfilePath(web, kind, s).Some? && !kind.YouTube?
    ensures '%' !in ProfilePath(web, kind, s).value
  {
  }

  /** A link is accepted only on its platform's host, over http or https, without credentials and without a port. */
  lemma ForeignLinksAreRefused(web: Web, kind: Platform, value: string)
    requires Host(kind) != "" && HasScheme(Trim(value)) && Normalize(web, kind, value).Some?
    ensures web.parse(Trim(value)).Some?
    ensures var url := web.parse(Trim(value)).value;
            && (url.protocol == "https:" || url.protocol == "http:") && url.username == "" && url.password == "" && url.port == ""
            && HostOf(kind, Lower(url.hostname))
  {
    assert !kind.EpicGames? && !kind.Website?;
    var url := web.parse(Trim(value));
    if url.Some? {
      HostIsRead(kind, Lower(url.value.hostname));
    }
    hide Trim, HasScheme, Units, Lower, HostOf, Decode, UrlPath, Host, Canonical, IsSpace, IsControl;
  }

  // ---------------------------------------------------------------------
  // Websites
  // ---------------------------------------------------------------------

  function Dotted(labels: seq<string>): string
    requires labels != []
  {
    if |labels| == 1 then labels[0] else labels[0] + "." + Dotted(labels[1..])
  }

  predicate Label(s: string) {
    s != "" && forall i :: 0 <= i < |s| ==> 'a' <= s[i] <= 'z' || 'A' <= s[i] <= 'Z' || '0' <= s[i] <= '9' || s[i] == '-'
  }

  predicate Labels(labels: seq<string>) {
    labels != [] && forall i :: 0 <= i < |labels| ==> Label(labels[i])
  }

  /** Letters, digits, hyphens and single dots between them. */
  predicate DotsBetween(host: string) {
    && host != "" && host[0] != '.' && host[|host| - 1] != '.'
    && (forall i :: 0 <= i < |host| ==> Alphanumeric(host[i]) || host[i] in "-.")
    && (forall i :: 0 <= i < |host| - 1 ==> !(host[i] == '.' && host[i + 1] == '.'))
  }

  /** `last` is what follows the last dot, if there is one. */
  predicate EndsInLabel(host: string, last: string, alone: bool) {
    && |last| <= |host| && host[|host| - |last|..] == last
    && (if alone then host == last else |last| < |host| && host[|host| - |last| - 1] == '.')
  }

  lemma {:induction false} DottedShape(labels: seq<string>)
    requires Labels(labels)
    ensures var host := Dotted(labels);
            DotsBetween(host) && ('.' in host <==> |labels| >= 2) && EndsInLabel(host, labels[|labels| - 1], |labels| == 1)
  {
    if |labels| > 1 {
      var rest := Dotted(labels[1..]);
      DottedShape(labels[1..]);
      assert labels[1..][|labels| - 2] == labels[|labels| - 1];
      OneMoreLabel(labels[0], rest, labels[|labels| - 1], |labels| == 2);
    }
  }

  lemma OneMoreLabel(first: string, rest: string, last: string, alone: bool)
    requires Label(first) && DotsBetween(rest) && EndsInLabel(rest, last, alone)
    ensures DotsBetween(first + "." + rest) && EndsInLabel(first + "." + rest, last, false) && '.' in first + "." + rest
  {
  }

  lemma {:induction false} SplitAtDots(host: string) returns (labels: seq<string>)
    requires DotsBetween(host)
    ensures Labels(labels) && Dotted(labels) == host
    decreases |host|
  {
    var i := 0;
    while i < |host| && host[i] != '.'
      invariant 0 <= i <= |host| && forall k :: 0 <= k < i ==> host[k] != '.'
    {
      i := i + 1;
    }
    if i == |host| {
      labels := [host];
    } else {
      var rest := SplitAtDots(host[i + 1..]);
      labels := [host[..i]] + rest;
      assert labels[1..] == rest && host == host[..i] + "." + host[i + 1..];
    }
  }

  /** A host with its last label ends in a dot and a word exactly if the last label is the word. */
  lemma LastLabelDecides(host: string, last: string, word: string)
    requires EndsInLabel(host, last, false) && '.' !in last && '.' !in word
    ensures EndsWith(host, "." + word) <==> last == word
  {
    var end := "." + word;
    var dot := |host| - |last| - 1;
    assert forall p :: dot < p < |host| ==> host[p] == last[p - dot - 1] && last[p - dot - 1] in last;
    if EndsWith(host, end) {
      var other := |host| - |end|;
      assert host[other..] == end && host[other] == end[0];
      assert forall p :: other < p < |host| ==> host[p] == word[p - other - 1] && word[p - other - 1] in word;
      assert other == dot;
    }
  }

  /** Some character of it is neither a digit nor a dot. */
  predicate NotOnlyDigits(host: string) {
    exists i :: 0 <= i < |host| && !('0' <= host[i] <= '9') && host[i] != '.'
  }

  /** At least two labels, the last of which is not local, and not digits alone. */
  ghost predicate PublicName(host: string, labels: seq<string>) {
    && |labels| >= 2 && Labels(labels) && host == Dotted(labels)
    && labels[|labels| - 1] != "local" && labels[|labels| - 1] != "localhost"
    && exists i :: 0 <= i < |labels| && NotOnlyDigits(labels[i])
  }

  lemma LabelHasNoDot(s: string)
    requires Label(s)
    ensures '.' !in s
  {
  }

  lemma DigitsJoin(a: string, b: string)
    ensures NotOnlyDigits(a + "." + b) <==> NotOnlyDigits(a) || NotOnlyDigits(b)
  {
    var whole := a + "." + b;
    assert forall i :: 0 <= i < |a| ==> whole[i] == a[i];
    assert forall i :: 0 <= i < |b| ==> whole[|a| + 1 + i] == b[i];
  }

  lemma {:induction false} SomeLetterIff(labels: seq<string>)
    requires Labels(labels)
    ensures NotOnlyDigits(Dotted(labels)) <==> exists i :: 0 <= i < |labels| && NotOnlyDigits(labels[i])
  {
    hide NotOnlyDigits;
    if |labels| > 1 {
      SomeLetterIff(labels[1..]);
      DigitsJoin(labels[0], Dotted(labels[1..]));
      assert forall i :: 1 <= i < |labels| ==> labels[i] == labels[1..][i - 1];
    }
  }

  lemma PublicHostIff(host: string)
    ensures PublicHost(host) <==> exists labels :: PublicName(host, labels)
  {
    if labels :| PublicName(host, labels) {
      PublicLabels(labels);
    }
    if PublicHost(host) {
      assert DotsBetween(host);
      var labels := SplitAtDots(host);
      DottedShape(labels);
      PublicLabels(labels);
      assert PublicName(host, labels);
    }
  }

  lemma PublicHostIs(host: string)
    ensures PublicHost(host)
       <==> && DotsBetween(host) && '.' in host && NotOnlyDigits(host)
            && !EndsWith(host, "." + "local") && !EndsWith(host, "." + "localhost")
  {
    assert "." + "local" == ".local" && "." + "localhost" == ".localhost";
    hide EndsWith;
  }

  lemma PublicLabels(labels: seq<string>)
    requires Labels(labels) && |labels| >= 2
    ensures PublicHost(Dotted(labels)) <==> PublicName(Dotted(labels), labels)
  {
    var host, last := Dotted(labels), labels[|labels| - 1];
    DottedShape(labels);
    LabelHasNoDot(last);
    PublicHostIs(host);
    SomeLetterIff(labels);
    hide Labels, Label, Dotted, PublicHost, DotsBetween, EndsInLabel, EndsWith, NotOnlyDigits;
    assert '.' !in "local" && '.' !in "localhost";
    LastLabelDecides(host, last, "local");
    LastLabelDecides(host, last, "localhost");
  }

  /** A website is accepted exactly for an address on a public host, and is then the https form the parser gives. */
  lemma WebsiteIff(web: Web, value: string)
    ensures var text := Trim(value);
            var url := web.parse(if HasScheme(text) then text else "https://" + text);
            Normalize(web, Website, value).Some? <==>
              && text != "" && Units(text) <= 512 && (forall i :: 0 <= i < |text| ==> !IsSpace(text[i]) && !IsControl(text[i]))
              && url.Some? && (url.value.protocol == "https:" || url.value.protocol == "http:")
              && url.value.username == "" && url.value.password == "" && url.value.port == ""
              && (exists labels :: PublicName(WithoutWww(Lower(url.value.hostname)), labels))
              && Units(web.secured(url.value).href) <= 512
    ensures Normalize(web, Website, value).Some? ==>
              var text := Trim(value);
              var url := web.parse(if HasScheme(text) then text else "https://" + text);
              url.Some? && Normalize(web, Website, value) == Some(web.secured(url.value).href)
  {
    var text := Trim(value);
    WebsiteUrlIff(web, web.parse(if HasScheme(text) then text else "https://" + text));
    OnlyTheAddressMatters(web, value);
    hide Trim, HasScheme, Units, Lower, WithoutWww, PublicName, IsSpace, IsControl, FromUrl, Normalize;
  }

  lemma OnlyTheAddressMatters(web: Web, value: string)
    ensures var text := Trim(value);
            Normalize(web, Website, value)
            == if text == "" || Units(text) > 512 || exists i :: 0 <= i < |text| && (IsSpace(text[i]) || IsControl(text[i])) then None
               else FromUrl(web, Website, web.parse(if HasScheme(text) then text else "https://" + text))
  {
    hide Trim, HasScheme, Units, FromUrl, IsSpace, IsControl;
  }

  lemma WebsiteUrlIff(web: Web, url: Option<Url>)
    ensures FromUrl(web, Website, url).Some? <==>
              && url.Some? && (url.value.protocol == "https:" || url.value.protocol == "http:")
              && url.value.username == "" && url.value.password == "" && url.value.port == ""
              && (exists labels :: PublicName(WithoutWww(Lower(url.value.hostname)), labels))
              && Units(web.secured(url.value).href) <= 512
    ensures FromUrl(web, Website, url).Some? ==> url.Some? && FromUrl(web, Website, url) == Some(web.secured(url.value).href)
  {
    if url.Some? {
      PublicHostIff(WithoutWww(Lower(url.value.hostname)));
    }
    hide Units, Lower, WithoutWww, PublicHost, PublicName;
  }

  // ---------------------------------------------------------------------
  // Lists of links
  // ---------------------------------------------------------------------

  /** Every item names a platform and carries an accepted value, no two the same platform. */
  predicate GoodItems(web: Web, items: seq<Item>) {
    && (forall i :: 0 <= i < |items| ==> items[i].Given? && Normalize(web, items[i].platform, items[i].value).Some?)
    && (forall i, j :: 0 <= i < j < |items| ==> items[i].platform != items[j].platform)
  }

  /** A list is accepted exactly if it has no more than eleven items and they are good; null counts as the empty list. */
  lemma ListAcceptedIff(web: Web, input: Input)
    ensures NormalizeInput(web, input).Some? <==> input.Null? || (input.Items? && |input.items| <= 11 && GoodItems(web, input.items))
    ensures NormalizeInput(web, input).Some? ==>
              var links := NormalizeInput(web, input).value;
              && (input.Null? ==> links == [])
              && (input.Items? ==>
                    && |links| == |input.items| && GoodItems(web, input.items)
                    && forall i :: 0 <= i < |links| ==>
                         && links[i].platform == input.items[i].platform
                         && Normalize(web, input.items[i].platform, input.items[i].value) == Some(links[i].value))
  {
    hide Normalize;
    if input.Items? {
      TakenItemsAreGood(web, input.items);
      if GoodItems(web, input.items) {
        GoodItemsAreTaken(web, input.items);
      }
    }
  }

  lemma TakenItemsAreGood(web: Web, items: seq<Item>)
    ensures NormalizeItems(web, items).Some? ==>
              var links := NormalizeItems(web, items).value;
              && |links| == |items| && GoodItems(web, items)
              && forall i :: 0 <= i < |links| ==>
                   links[i].platform == items[i].platform && Normalize(web, items[i].platform, items[i].value) == Some(links[i].value)
  {
    hide Normalize, NormalizeItems;
    if NormalizeItems(web, items).Some? {
      LinksAreAccepted(web, items);
      assert forall i :: 0 <= i < |items| ==> NormalizeItem(web, items[i]).Some?;
    }
  }

  lemma {:induction false} GoodItemsAreTaken(web: Web, items: seq<Item>)
    requires GoodItems(web, items)
    ensures NormalizeItems(web, items).Some?
  {
    hide Normalize;
    if items != [] {
      var n := |items| - 1;
      GoodItemsAreTaken(web, items[..n]);
      TakenItemsAreGood(web, items[..n]);
      var before := NormalizeItems(web, items[..n]).value;
      assert forall i :: 0 <= i < n ==> before[i].platform == items[i].platform;
      assert forall link :: link in before ==> link.platform != items[n].platform;
    }
  }

  /** A display name on Epic Games is accepted exactly as it stands. */
  lemma EpicIff(web: Web, value: string)
    requires Faithful(web)
    ensures var text := Trim(value);
            && (Normalize(web, EpicGames, value) == Some(text) <==>
                  1 <= |text| <= 32 && forall i :: 0 <= i < |text| ==> web.letterOrNumber(text[i]) || text[i] in {' ', '.', '_', '-'})
            && (Normalize(web, EpicGames, value).Some? ==> Normalize(web, EpicGames, value) == Some(text))
  {
    var text := Trim(value);
    UnitsAtMost(text);
    hide Trim, Units;
    assert EpicName(web, text) ==> forall i :: 0 <= i < |text| ==> text[i] as int < 128 ==> Alphanumeric(text[i]) || text[i] in " ._-";
  }
}
