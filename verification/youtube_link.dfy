/** `validate_youtube_link`: a format check by regular expression, a
    playlist check, a load of the video and a duration check, run in that
    order, each failure with its own reason. The load and the length lookup
    are network calls; the model takes their outcome as an input. */
module YouTubeLink {
  import opened Wrappers

  /** The default `max_duration`, in seconds. */
  const DefaultMaxDuration: int := 300

  // ---------------------------------------------------------------------
  // The pattern ^(https?://)?(www\.youtube\.com|youtu\.?be)/.+$ under re.match

  const Schemes: set<string> := {"", "http://", "https://"}

  /** `www.youtube.com`, and `youtu\.?be`, which is `youtube` or `youtu.be`. */
  const Hosts: set<string> := {"www.youtube.com", "youtube", "youtu.be"}

  predicate NoNewline(s: string) {
    forall i :: 0 <= i < |s| ==> s[i] != '\n'
  }

  /** `.+$`: at least one character, none a newline, then the end of the
      string or, as Python's `$` allows, one newline that ends it. */
  ghost predicate PathLanguage(rest: string) {
    exists path :: |path| >= 1 && NoNewline(path) && (rest == path || rest == path + "\n")
  }

  /** The set of strings the pattern matches, written as the pattern reads. */
  ghost predicate RegexLanguage(url: string) {
    exists scheme, host, rest ::
      scheme in Schemes && host in Hosts && PathLanguage(rest) && url == scheme + host + "/" + rest
  }

  /** The optional scheme group: the scheme the string starts with, if any. */
  function SchemeOf(url: string): (scheme: string)
    ensures scheme in Schemes && scheme <= url
  {
    if "https://" <= url then "https://"
    else if "http://" <= url then "http://"
    else ""
  }

  /** The host group, which must be followed by `/`. */
  function HostOf(s: string): (host: Option<string>)
    ensures host.Some? ==> host.value in Hosts && host.value + "/" <= s
  {
    if "www.youtube.com/" <= s then Some("www.youtube.com")
    else if "youtube/" <= s then Some("youtube")
    else if "youtu.be/" <= s then Some("youtu.be")
    else None
  }

  predicate PathMatches(rest: string) {
    if |rest| > 0 && rest[|rest| - 1] == '\n'
    then |rest| >= 2 && NoNewline(rest[..|rest| - 1])
    else |rest| >= 1 && NoNewline(rest)
  }

  /** The hand-written matcher: strip the scheme, then the host and slash,
      then test what remains. */
  predicate MatchesFormat(url: string) {
    var s := url[|SchemeOf(url)|..];
    match HostOf(s)
    case Some(host) => PathMatches(s[|host| + 1..])
    case None => false
  }

  /** A string whose `k`-th character differs from the `k`-th of `p` does
      not start with `p`. */
  lemma NotPrefixAt(p: string, s: string, k: nat)
    requires k < |p| && k < |s| && p[k] != s[k]
    ensures !(p <= s)
  {
  }

  lemma PathMatchesLanguage(rest: string)
    ensures PathMatches(rest) <==> PathLanguage(rest)
  {
    if PathMatches(rest) {
      if |rest| > 0 && rest[|rest| - 1] == '\n' {
        var path := rest[..|rest| - 1];
        assert rest == path + "\n";
        assert NoNewline(path);
      } else {
        assert NoNewline(rest);
      }
    }
    if PathLanguage(rest) {
      var path :| |path| >= 1 && NoNewline(path) && (rest == path || rest == path + "\n");
      if rest == path + "\n" {
        assert rest[..|rest| - 1] == path;
      } else {
        assert rest[|rest| - 1] == path[|path| - 1];
      }
    }
  }

  /** After a recognised scheme comes the host, so no scheme is taken for
      another: no host begins with `h`, and `http://` differs from
      `https://` at its fifth character. */
  lemma SchemeLayer(scheme: string, tail: string)
    requires scheme in Schemes && |tail| > 0 && (tail[0] == 'w' || tail[0] == 'y')
    ensures SchemeOf(scheme + tail) == scheme
  {
    var url := scheme + tail;
    if scheme == "http://" {
      assert url[4] == ':';
      NotPrefixAt("https://", url, 4);
    } else if scheme == "" {
      NotPrefixAt("https://", url, 0);
      NotPrefixAt("http://", url, 0);
    } else {
      assert url[..8] == "https://";
    }
  }

  /** The hosts differ before their slash, so each is recognised as itself. */
  lemma HostLayer(host: string, rest: string)
    requires host in Hosts
    ensures HostOf(host + "/" + rest) == Some(host)
  {
    var tail := host + "/" + rest;
    if host == "youtu.be" {
      assert tail[..9] == "youtu.be/";
      assert tail[0] == 'y' && tail[5] == '.';
      NotPrefixAt("www.youtube.com/", tail, 0);
      NotPrefixAt("youtube/", tail, 5);
    } else if host == "youtube" {
      assert tail[..8] == "youtube/";
      assert tail[0] == 'y';
      NotPrefixAt("www.youtube.com/", tail, 0);
    } else {
      assert tail[..16] == "www.youtube.com/";
    }
  }

  lemma MatchesFormatInRegex(url: string)
    requires MatchesFormat(url)
    ensures RegexLanguage(url)
  {
    var scheme := SchemeOf(url);
    var s := url[|scheme|..];
    var host := HostOf(s).value;
    var rest := s[|host| + 1..];
    assert PathLanguage(rest) by {
      PathMatchesLanguage(rest);
    }
    Split(url, scheme, host, rest);
  }

  /** A string that starts with a scheme, then a host and a slash, is
      their concatenation with what follows. */
  lemma Split(url: string, scheme: string, host: string, rest: string)
    requires scheme <= url && host + "/" <= url[|scheme|..]
    requires rest == url[|scheme|..][|host| + 1..]
    ensures url == scheme + host + "/" + rest
  {
    var s := url[|scheme|..];
    assert s == host + "/" + rest;
    assert url == scheme + s;
  }

  lemma RegexInMatchesFormat(url: string)
    requires RegexLanguage(url)
    ensures MatchesFormat(url)
  {
    var scheme, host, rest :|
      scheme in Schemes && host in Hosts && PathLanguage(rest) && url == scheme + host + "/" + rest;
    PathMatchesLanguage(rest);
    ComposedMatches(scheme, host, rest);
  }

  /** A scheme, a host, a slash and a matching path, put together, match. */
  lemma ComposedMatches(scheme: string, host: string, rest: string)
    requires scheme in Schemes && host in Hosts && PathMatches(rest)
    ensures MatchesFormat(scheme + host + "/" + rest)
  {
    var tail := host + "/" + rest;
    Regroup(scheme, host, rest);
    assert tail[0] == host[0];
    SchemeLayer(scheme, tail);
    SuffixAfter(scheme, tail);
    HostLayer(host, rest);
    SuffixAfter(host + "/", rest);
    MatchesByLayers(scheme + tail, scheme, host);
  }

  lemma Regroup(scheme: string, host: string, rest: string)
    ensures scheme + host + "/" + rest == scheme + (host + "/" + rest)
  {
  }

  /** Dropping a prefix's length from a concatenation leaves the suffix. */
  lemma SuffixAfter(p: string, s: string)
    ensures (p + s)[|p|..] == s
  {
  }

  /** The matcher accepts a string once each layer has been recognised. */
  lemma MatchesByLayers(url: string, scheme: string, host: string)
    requires SchemeOf(url) == scheme && |scheme| <= |url|
    requires HostOf(url[|scheme|..]) == Some(host) && |host| + 1 <= |url[|scheme|..]|
    requires PathMatches(url[|scheme|..][|host| + 1..])
    ensures MatchesFormat(url)
  {
  }

  /** The hand-written matcher accepts exactly the strings of the pattern. */
  lemma FormatMatchesRegex(url: string)
    ensures MatchesFormat(url) <==> RegexLanguage(url)
  {
    if MatchesFormat(url) {
      MatchesFormatInRegex(url);
    }
    if RegexLanguage(url) {
      RegexInMatchesFormat(url);
    }
  }

  /** `youtube.com/...` without `www.` is refused: `youtu\.?be` takes
      `youtube` and then finds `.` where it needs `/`. */
  lemma BareDomainRejected(rest: string)
    ensures !MatchesFormat("youtube.com/" + rest)
  {
    var url := "youtube.com/" + rest;
    assert url[0] == 'y' && url[5] == 'b' && url[7] == '.';
    NotPrefixAt("https://", url, 0);
    NotPrefixAt("http://", url, 0);
    NotPrefixAt("www.youtube.com/", url, 0);
    NotPrefixAt("youtube/", url, 7);
    NotPrefixAt("youtu.be/", url, 5);
  }

  /** Every non-empty single-line path under `https://www.youtube.com/`
      is accepted. */
  lemma WatchLinkAccepted(path: string)
    requires |path| >= 1 && NoNewline(path)
    ensures MatchesFormat("https://www.youtube.com/" + path)
  {
    assert "https://" + "www.youtube.com" + "/" == "https://www.youtube.com/";
    ComposedMatches("https://", "www.youtube.com", path);
  }

  /** Every non-empty single-line path under `youtu.be/` is accepted. */
  lemma ShortLinkAccepted(path: string)
    requires |path| >= 1 && NoNewline(path)
    ensures MatchesFormat("youtu.be/" + path)
  {
    assert "" + "youtu.be" + "/" == "youtu.be/";
    ComposedMatches("", "youtu.be", path);
  }

  /** Python's `$` lets one final newline follow the path, but not two,
      and the path may not be empty. */
  lemma TrailingNewlines()
    ensures PathMatches("abc\n")
    ensures !PathMatches("a\n\n")
    ensures !PathMatches("")
    ensures !PathMatches("\n")
  {
    assert "abc\n"[..3] == "abc";
    assert NoNewline("abc");
    assert "a\n\n"[..2][1] == '\n';
  }

  // ---------------------------------------------------------------------
  // Substring test

  /** Python's `sub in s` on strings. */
  predicate ContainsSubstring(s: string, sub: string)
    decreases |s|
  {
    sub <= s || (|s| > 0 && ContainsSubstring(s[1..], sub))
  }

  ghost predicate OccursAt(s: string, sub: string, i: int) {
    0 <= i && i + |sub| <= |s| && s[i..i + |sub|] == sub
  }

  lemma {:induction false} ContainsSubstringOccurs(s: string, sub: string)
    ensures ContainsSubstring(s, sub) <==> exists i :: OccursAt(s, sub, i)
    decreases |s|
  {
    if sub <= s {
      assert OccursAt(s, sub, 0);
    } else if |s| > 0 {
      ContainsSubstringOccurs(s[1..], sub);
      if ContainsSubstring(s[1..], sub) {
        var i :| OccursAt(s[1..], sub, i);
        assert s[1..][i..i + |sub|] == s[i + 1..i + 1 + |sub|];
        assert OccursAt(s, sub, i + 1);
      }
      if exists i :: OccursAt(s, sub, i) {
        var i :| OccursAt(s, sub, i);
        assert i > 0;
        assert s[1..][i - 1..i - 1 + |sub|] == s[i..i + |sub|];
        assert OccursAt(s[1..], sub, i - 1);
      }
    }
  }

  // ---------------------------------------------------------------------
  // The validator

  /** What `YouTube(url)` and `yt.length` produced: the length in seconds,
      or the message of the exception the load raised. */
  datatype LoadOutcome = Loaded(lengthSeconds: int) | LoadFailed(error: string)

  /** The reason string of a failed check, by the values it interpolates. */
  datatype Rejection =
    | InvalidFormat
    | IsPlaylist
    | LoadError(error: string)
    | TooLong(maxDuration: int)

  /** The returned pair `[valid, reason]`, `None` standing for Python's `None`. */
  datatype Verdict = Verdict(valid: bool, reason: Option<Rejection>)

  function ValidateYouTubeLink(url: string, load: LoadOutcome, maxDuration: int): (v: Verdict)
    ensures v.valid <==> v.reason.None?
    ensures v.valid ==> RegexLanguage(url) && load.Loaded? && load.lengthSeconds <= maxDuration
    ensures v.valid ==> !exists i :: OccursAt(url, "playlist", i)
  {
    FormatMatchesRegex(url);
    ContainsSubstringOccurs(url, "playlist");
    if !MatchesFormat(url) then Verdict(false, Some(InvalidFormat))
    else if ContainsSubstring(url, "playlist") then Verdict(false, Some(IsPlaylist))
    else match load
      case LoadFailed(e) => Verdict(false, Some(LoadError(e)))
      case Loaded(length) =>
        if length > maxDuration then Verdict(false, Some(TooLong(maxDuration)))
        else Verdict(true, None)
  }

  /** The four checks, in the order the validator runs them. */
  datatype Check = FormatCheck | PlaylistCheck | LoadCheck | DurationCheck

  const CheckOrder: seq<Check> := [FormatCheck, PlaylistCheck, LoadCheck, DurationCheck]

  /** Each check judged on its own, from the pattern's language and the
      substring relation rather than from the matcher. */
  ghost predicate Passes(c: Check, url: string, load: LoadOutcome, maxDuration: int) {
    match c
    case FormatCheck => RegexLanguage(url)
    case PlaylistCheck => !exists i :: OccursAt(url, "playlist", i)
    case LoadCheck => load.Loaded?
    case DurationCheck => load.Loaded? ==> load.lengthSeconds <= maxDuration
  }

  function RejectionOf(c: Check, load: LoadOutcome, maxDuration: int): Rejection {
    match c
    case FormatCheck => InvalidFormat
    case PlaylistCheck => IsPlaylist
    case LoadCheck => LoadError(if load.LoadFailed? then load.error else "")
    case DurationCheck => TooLong(maxDuration)
  }

  /** The first check in `checks` that fails, if any. */
  ghost function FirstFailing(checks: seq<Check>, url: string, load: LoadOutcome, maxDuration: int): Option<Check>
  {
    if |checks| == 0 then None
    else if !Passes(checks[0], url, load, maxDuration) then Some(checks[0])
    else FirstFailing(checks[1..], url, load, maxDuration)
  }

  lemma FirstFailingInOrder(url: string, load: LoadOutcome, maxDuration: int)
    ensures FirstFailing(CheckOrder, url, load, maxDuration) ==
      if !Passes(FormatCheck, url, load, maxDuration) then Some(FormatCheck)
      else if !Passes(PlaylistCheck, url, load, maxDuration) then Some(PlaylistCheck)
      else if !Passes(LoadCheck, url, load, maxDuration) then Some(LoadCheck)
      else if !Passes(DurationCheck, url, load, maxDuration) then Some(DurationCheck)
      else None
  {
    var order := CheckOrder;
    var rest1, rest2, rest3 := order[1..], order[1..][1..], order[1..][1..][1..];
    assert rest1 == [PlaylistCheck, LoadCheck, DurationCheck];
    assert rest2 == [LoadCheck, DurationCheck];
    assert rest3 == [DurationCheck];
    assert rest3[1..] == [];
    assert FirstFailing(rest3, url, load, maxDuration) ==
      if !Passes(DurationCheck, url, load, maxDuration) then Some(DurationCheck) else None;
    assert FirstFailing(rest2, url, load, maxDuration) ==
      if !Passes(LoadCheck, url, load, maxDuration) then Some(LoadCheck)
      else FirstFailing(rest3, url, load, maxDuration);
    assert FirstFailing(rest1, url, load, maxDuration) ==
      if !Passes(PlaylistCheck, url, load, maxDuration) then Some(PlaylistCheck)
      else FirstFailing(rest2, url, load, maxDuration);
  }

  /** The validator accepts exactly when every check passes, and otherwise
      reports the reason of the first check, in the fixed order, that fails. */
  lemma ValidationFollowsCheckOrder(url: string, load: LoadOutcome, maxDuration: int)
    ensures ValidateYouTubeLink(url, load, maxDuration) ==
      match FirstFailing(CheckOrder, url, load, maxDuration)
      case None => Verdict(true, None)
      case Some(c) => Verdict(false, Some(RejectionOf(c, load, maxDuration)))
  {
    FirstFailingInOrder(url, load, maxDuration);
    FormatMatchesRegex(url);
    ContainsSubstringOccurs(url, "playlist");
  }

  /** A video exactly as long as the limit passes the duration check. */
  lemma LengthAtLimitAccepted(url: string, maxDuration: int)
    requires MatchesFormat(url) && !ContainsSubstring(url, "playlist")
    ensures ValidateYouTubeLink(url, Loaded(maxDuration), maxDuration) == Verdict(true, None)
    ensures ValidateYouTubeLink(url, Loaded(maxDuration + 1), maxDuration) ==
      Verdict(false, Some(TooLong(maxDuration)))
  {
  }
}
