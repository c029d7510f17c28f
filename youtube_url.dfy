/**
 * `isValidYouTubeUrl`: the test of the message text against
 *   ^(https?://)?(www\.)?(youtube\.com|youtu\.be)/.+$
 * (no flags, so `^`/`$` anchor the whole text and `.` refuses line terminators).
 */
module YouTubeUrl {
  import opened Wrappers
  import opened JsText

  const SCHEMES: seq<string> := ["", "http://", "https://"]
  const SUBDOMAINS: seq<string> := ["", "www."]
  const HOSTS: seq<string> := ["youtube.com", "youtu.be"]

  /** url is `head` followed by at least one character, none of them a line terminator. */
  predicate FitsShape(url: string, head: string) {
    HasPrefixAt(url, 0, head) && |head| < |url| && LineFree(url, |head|, |url|)
  }

  /**
   * The regular expression matches url: some choice of optional scheme,
   * optional `www.` and host, then `/`, then one or more non-line-terminators
   * up to the end.
   */
  ghost predicate MatchesUrlPattern(url: string) {
    exists i: nat, j: nat, k: nat :: i < |SCHEMES| && j < |SUBDOMAINS| && k < |HOSTS| &&
      FitsShape(url, Head(i, j, k))
  }

  /** Position after the optional scheme. */
  function SchemeEnd(url: string): nat {
    if HasPrefixAt(url, 0, "https://") then 8
    else if HasPrefixAt(url, 0, "http://") then 7
    else 0
  }

  /** Position after the optional `www.` that starts at i. */
  function SubdomainEnd(url: string, i: nat): nat {
    if HasPrefixAt(url, i, "www.") then i + 4 else i
  }

  /** Position after `youtube.com/` or `youtu.be/` at i, if either is there. */
  function HostEnd(url: string, i: nat): Option<nat> {
    if HasPrefixAt(url, i, "youtube.com/") then Some(i + 12)
    else if HasPrefixAt(url, i, "youtu.be/") then Some(i + 9)
    else None
  }

  /** The literal text before the path for one choice of scheme, subdomain and host. */
  function Head(i: nat, j: nat, k: nat): string
    requires i < |SCHEMES| && j < |SUBDOMAINS| && k < |HOSTS|
  {
    SCHEMES[i] + SUBDOMAINS[j] + HOSTS[k] + "/"
  }

  /**
   * A left-to-right scanner without backtracking. It agrees with the regular
   * expression because each optional part, when present, starts with a letter
   * (`h`, `w`) that what follows it cannot start with, and the two hosts
   * differ at their sixth character.
   */
  function IsValidYouTubeUrl(url: string): (r: bool)
    ensures r <==> MatchesUrlPattern(url)
  {
    ScannerCorrect(url);
    match HostEnd(url, SubdomainEnd(url, SchemeEnd(url)))
    case None => false
    case Some(pathAt) => pathAt < |url| && LineFree(url, pathAt, |url|)
  }

  lemma ScannerCorrect(url: string)
    ensures MatchesUrlPattern(url) <==>
      match HostEnd(url, SubdomainEnd(url, SchemeEnd(url)))
      case None => false
      case Some(pathAt) => pathAt < |url| && LineFree(url, pathAt, |url|)
  {
    var found := HostEnd(url, SubdomainEnd(url, SchemeEnd(url)));
    if MatchesUrlPattern(url) {
      var i: nat, j: nat, k: nat :| i < |SCHEMES| && j < |SUBDOMAINS| && k < |HOSTS| &&
        FitsShape(url, Head(i, j, k));
      ScannerAgrees(url, i, j, k);
    } else if found.Some? && found.value < |url| && LineFree(url, found.value, |url|) {
      var i, j, k := ScannedHead(url);
      assert FitsShape(url, Head(i, j, k));
    }
  }

  lemma SchemeAgrees(url: string, i: nat)
    requires i < |SCHEMES| && HasPrefixAt(url, 0, SCHEMES[i])
    requires |SCHEMES[i]| < |url| && url[|SCHEMES[i]|] in "wy"
    ensures SchemeEnd(url) == |SCHEMES[i]|
  {
    if i == 0 {
      PrefixCharMismatch(url, 0, "https://", 0);
      PrefixCharMismatch(url, 0, "http://", 0);
    } else if i == 1 {
      PrefixChar(url, 0, SCHEMES[i], 4);
      PrefixCharMismatch(url, 0, "https://", 4);
    }
  }

  lemma SubdomainAgrees(url: string, at: nat, j: nat)
    requires j < |SUBDOMAINS| && HasPrefixAt(url, at, SUBDOMAINS[j])
    requires at + |SUBDOMAINS[j]| < |url| && url[at + |SUBDOMAINS[j]|] == 'y'
    ensures SubdomainEnd(url, at) == at + |SUBDOMAINS[j]|
  {
    if j == 0 {
      PrefixCharMismatch(url, at, "www.", 0);
    }
  }

  lemma HostAgrees(url: string, at: nat, k: nat)
    requires k < |HOSTS| && HasPrefixAt(url, at, HOSTS[k] + "/")
    ensures HostEnd(url, at) == Some(at + |HOSTS[k]| + 1)
  {
    assert HOSTS[0] + "/" == "youtube.com/" && HOSTS[1] + "/" == "youtu.be/";
    if k == 1 {
      PrefixChar(url, at, HOSTS[k] + "/", 5);
      PrefixCharMismatch(url, at, "youtube.com/", 5);
    }
  }

  /** If url starts with one of the regex's heads, the scanner ends exactly after that head. */
  lemma ScannerAgrees(url: string, i: nat, j: nat, k: nat)
    requires i < |SCHEMES| && j < |SUBDOMAINS| && k < |HOSTS|
    requires HasPrefixAt(url, 0, Head(i, j, k))
    ensures HostEnd(url, SubdomainEnd(url, SchemeEnd(url))) == Some(|Head(i, j, k)|)
  {
    var sc, sub, host := SCHEMES[i], SUBDOMAINS[j], HOSTS[k] + "/";
    assert Head(i, j, k) == (sc + sub) + host;
    HasPrefixAtSplit(url, 0, sc + sub, host);
    HasPrefixAtSplit(url, 0, sc, sub);
    var at := |sc| + |sub|;
    PrefixChar(url, at, host, 0);
    if j == 1 {
      PrefixChar(url, |sc|, sub, 0);
    }
    SchemeAgrees(url, i);
    SubdomainAgrees(url, |sc|, j);
    HostAgrees(url, at, k);
  }

  /** The regex head that the scanner has read, when it finds a host. */
  lemma ScannedHead(url: string) returns (i: nat, j: nat, k: nat)
    requires HostEnd(url, SubdomainEnd(url, SchemeEnd(url))).Some?
    ensures i < |SCHEMES| && j < |SUBDOMAINS| && k < |HOSTS|
    ensures HasPrefixAt(url, 0, Head(i, j, k))
    ensures HostEnd(url, SubdomainEnd(url, SchemeEnd(url))).value == |Head(i, j, k)|
  {
    var a := SchemeEnd(url);
    i := if a == 8 then 2 else if a == 7 then 1 else 0;
    assert HasPrefixAt(url, 0, SCHEMES[i]) && |SCHEMES[i]| == a;
    var b := SubdomainEnd(url, a);
    j := if b == a + 4 then 1 else 0;
    assert HasPrefixAt(url, a, SUBDOMAINS[j]) && |SUBDOMAINS[j]| == b - a;
    var c := HostEnd(url, b).value;
    k := if c == b + 12 then 0 else 1;
    assert HOSTS[0] + "/" == "youtube.com/" && HOSTS[1] + "/" == "youtu.be/";
    assert HasPrefixAt(url, b, HOSTS[k] + "/") && |HOSTS[k] + "/"| == c - b;
    HasPrefixAtConcat(url, 0, SCHEMES[i], SUBDOMAINS[j]);
    HasPrefixAtConcat(url, 0, SCHEMES[i] + SUBDOMAINS[j], HOSTS[k] + "/");
    assert Head(i, j, k) == SCHEMES[i] + SUBDOMAINS[j] + (HOSTS[k] + "/");
  }

  /**
   * Every combination of scheme, subdomain and host followed by a non-empty
   * path without line terminators is accepted, such as
   * `https://www.youtube.com/watch?v=…` or `youtu.be/…`.
   */
  lemma AcceptsEveryShape(i: nat, j: nat, k: nat, path: string)
    requires i < |SCHEMES| && j < |SUBDOMAINS| && k < |HOSTS|
    requires path != [] && NoLineTerminator(path)
    ensures IsValidYouTubeUrl(Head(i, j, k) + path)
  {
    var head := Head(i, j, k);
    var url := head + path;
    forall m | 0 <= m < |head| ensures url[m] == head[m] { }
    forall m | |head| <= m < |url| ensures url[m] == path[m - |head|] { }
    assert FitsShape(url, head);
  }

  /** A host followed by `/` and nothing else is rejected: the path needs a character. */
  lemma RejectsEmptyPath()
    ensures !IsValidYouTubeUrl("youtube.com/")
  {
  }

  /** Matching is case-sensitive. */
  lemma RejectsUpperCaseHost()
    ensures !IsValidYouTubeUrl("https://YouTube.com/watch")
  {
    var url := "https://YouTube.com/watch";
    assert SchemeEnd(url) == 8;
    PrefixCharMismatch(url, 8, "www.", 0);
    PrefixCharMismatch(url, 8, "youtube.com/", 0);
    PrefixCharMismatch(url, 8, "youtu.be/", 0);
  }

  /** The mobile subdomain `m.` is rejected: only `www.` may precede the host. */
  lemma RejectsOtherSubdomain()
    ensures !IsValidYouTubeUrl("https://m.youtube.com/watch")
  {
    var url := "https://m.youtube.com/watch";
    assert SchemeEnd(url) == 8;
    PrefixCharMismatch(url, 8, "www.", 0);
    PrefixCharMismatch(url, 8, "youtube.com/", 0);
    PrefixCharMismatch(url, 8, "youtu.be/", 0);
  }

  /** A line break anywhere in the path is rejected. */
  lemma RejectsLineBreak()
    ensures !IsValidYouTubeUrl("youtu.be/abc\ndef")
  {
    var url := "youtu.be/abc\ndef";
    PrefixCharMismatch(url, 0, "https://", 0);
    PrefixCharMismatch(url, 0, "http://", 0);
    PrefixCharMismatch(url, 0, "www.", 0);
    PrefixCharMismatch(url, 0, "youtube.com/", 5);
    assert HostEnd(url, 0) == Some(9);
    assert IsLineTerminator(url[12]);
  }
}
