/**
 * Reading the downloaded file's path out of yt-dlp's standard output once
 * the process has closed. Three regular expressions are tried in a fixed
 * order, each with `String.prototype.match` (no `g` flag), i.e. its leftmost
 * match over the whole buffer:
 *   Merger:            \[Merger\] Merging formats into "(.+?)"
 *   Destination:       \[download\] Destination: (.+)
 *   AlreadyDownloaded: \[download\] (.+) has already been downloaded
 * The first capture group of the first pattern that matches is trimmed.
 */
module DownloadLog {
  import opened Wrappers
  import opened JsText

  datatype Pattern = Merger | Destination | AlreadyDownloaded

  const MERGER_LEAD := "[Merger] Merging formats into \""
  const DESTINATION_LEAD := "[download] Destination: "
  const ALREADY_LEAD := "[download] "
  const ALREADY_TAIL := " has already been downloaded"

  const DOWNLOAD_FAILED := "Download failed"
  const NO_PATH := "Could not determine downloaded file path"

  /** The literal text before the capture group. */
  function Lead(pat: Pattern): string {
    match pat
    case Merger => MERGER_LEAD
    case Destination => DESTINATION_LEAD
    case AlreadyDownloaded => ALREADY_LEAD
  }

  /**
   * The regex engine, started at position p of s, succeeds with the capture
   * group s[p + |Lead(pat)|..e]. The group is one or more characters that
   * are not line terminators, and:
   *   Merger (lazy `.+?`): s[e] is the first `"` after the group's first character;
   *   Destination (greedy `.+`): the group runs to the end of the line;
   *   AlreadyDownloaded (greedy `.+` then backtracking): the tail text follows
   *     at e, and at no later end of a line-free group.
   */
  ghost predicate MatchAt(pat: Pattern, s: string, p: nat, e: nat) {
    var q := p + |Lead(pat)|;
    HasPrefixAt(s, p, Lead(pat)) && q < e && LineFree(s, q, e) &&
    match pat
    case Merger =>
      e < |s| && s[e] == '"' && forall k :: q < k < e ==> s[k] != '"'
    case Destination =>
      e == |s| || IsLineTerminator(s[e])
    case AlreadyDownloaded =>
      HasPrefixAt(s, e, ALREADY_TAIL) &&
      forall e' :: e < e' && LineFree(s, q, e') ==> !HasPrefixAt(s, e', ALREADY_TAIL)
  }

  /** `s.match(pattern)` succeeds at p, with capture end e, and at no earlier position. */
  ghost predicate LeftmostMatch(pat: Pattern, s: string, p: nat, e: nat) {
    MatchAt(pat, s, p, e) && forall p': nat, e': nat :: p' < p ==> !MatchAt(pat, s, p', e')
  }

  ghost predicate Matches(pat: Pattern, s: string) {
    exists p: nat, e: nat :: MatchAt(pat, s, p, e)
  }

  /** At one starting position the engine's result is determined: at most one capture end. */
  lemma MatchAtUnique(pat: Pattern, s: string, p: nat, e1: nat, e2: nat)
    requires MatchAt(pat, s, p, e1) && MatchAt(pat, s, p, e2)
    ensures e1 == e2
  {
    if e1 < e2 {
      MatchAtNotBefore(pat, s, p, e1, e2);
    } else if e2 < e1 {
      MatchAtNotBefore(pat, s, p, e2, e1);
    }
  }

  lemma MatchAtNotBefore(pat: Pattern, s: string, p: nat, e1: nat, e2: nat)
    requires e1 < e2 && MatchAt(pat, s, p, e2)
    ensures !MatchAt(pat, s, p, e1)
  {
    var q := p + |Lead(pat)|;
    match pat
    case Merger =>
      assert s[e1] != '"' || e1 <= q;
    case Destination =>
      assert e1 <= q || (e1 < |s| && !IsLineTerminator(s[e1]));
    case AlreadyDownloaded =>
      assert LineFree(s, q, e2);
  }

  lemma LeftmostUnique(pat: Pattern, s: string, p1: nat, e1: nat, p2: nat, e2: nat)
    requires LeftmostMatch(pat, s, p1, e1) && LeftmostMatch(pat, s, p2, e2)
    ensures p1 == p2 && e1 == e2
  {
    if p1 == p2 {
      MatchAtUnique(pat, s, p1, e1, e2);
    }
  }

  /**
   * The lazy group of the Merger pattern: starting from the group's first
   * character at q, look at j, j+1, ... for the first `"`, giving up at a line
   * terminator or at the end of s.
   */
  function ClosingQuote(s: string, q: nat, j: nat): (r: Option<nat>)
    requires q < j <= |s| && LineFree(s, q, j)
    requires forall k :: q < k < j ==> s[k] != '"'
    ensures r.Some? ==> (j <= r.value < |s| && s[r.value] == '"' && LineFree(s, q, r.value) &&
      forall k :: q < k < r.value ==> s[k] != '"')
    ensures r.None? ==> forall e :: j <= e < |s| && LineFree(s, q, e) ==> s[e] != '"'
    decreases |s| - j
  {
    if j == |s| then None
    else if s[j] == '"' then Some(j)
    else if IsLineTerminator(s[j]) then None
    else ClosingQuote(s, q, j + 1)
  }

  /**
   * The greedy group of the AlreadyDownloaded pattern backing off: the
   * largest end in q+1..e at which the tail text follows.
   */
  function LastTailBefore(s: string, q: nat, e: nat): (r: Option<nat>)
    requires q <= e <= |s|
    ensures r.Some? ==> (q < r.value <= e && HasPrefixAt(s, r.value, ALREADY_TAIL) &&
      forall e' :: r.value < e' <= e ==> !HasPrefixAt(s, e', ALREADY_TAIL))
    ensures r.None? ==> forall e' :: q < e' <= e ==> !HasPrefixAt(s, e', ALREADY_TAIL)
    decreases e
  {
    if e == q then None
    else if HasPrefixAt(s, e, ALREADY_TAIL) then Some(e)
    else LastTailBefore(s, q, e - 1)
  }

  /** Runs pattern pat at position p: the end of its capture group, if it matches there. */
  function CaptureEnd(pat: Pattern, s: string, p: nat): (r: Option<nat>)
    ensures r.Some? ==> MatchAt(pat, s, p, r.value)
    ensures r.None? ==> forall e: nat :: !MatchAt(pat, s, p, e)
  {
    var q := p + |Lead(pat)|;
    if !HasPrefixAt(s, p, Lead(pat)) || q == |s| || IsLineTerminator(s[q]) then None
    else
      match pat
      case Merger => ClosingQuote(s, q, q + 1)
      case Destination => Some(LineEnd(s, q))
      case AlreadyDownloaded =>
        var r := LastTailBefore(s, q, LineEnd(s, q));
        LineEndBoundsLineFree(s, q);
        r
  }

  /** No line-free stretch from q reaches past the end of q's line. */
  lemma LineEndBoundsLineFree(s: string, q: nat)
    requires q <= |s|
    ensures forall e: nat :: LineFree(s, q, e) ==> e <= LineEnd(s, q)
  {
  }

  /** A match of pattern pat: where it starts and where its capture group ends. */
  datatype Match = Match(start: nat, end: nat)

  /** `s.match(pattern)`, tried at from, from+1, ... */
  function SearchFrom(pat: Pattern, s: string, from: nat): (r: Option<Match>)
    ensures r.Some? ==> (from <= r.value.start && MatchAt(pat, s, r.value.start, r.value.end) &&
      forall p: nat, e: nat :: from <= p < r.value.start ==> !MatchAt(pat, s, p, e))
    ensures r.None? ==> forall p: nat, e: nat :: from <= p ==> !MatchAt(pat, s, p, e)
    decreases |s| + 1 - from
  {
    if from > |s| then
      NoMatchPastEnd(pat, s, from);
      None
    else
      match CaptureEnd(pat, s, from)
      case Some(e) => Some(Match(from, e))
      case None =>
        var r := SearchFrom(pat, s, from + 1);
        SearchStep(pat, s, from, r);
        r
  }

  lemma SearchStep(pat: Pattern, s: string, from: nat, r: Option<Match>)
    requires forall e: nat :: !MatchAt(pat, s, from, e)
    requires r.Some? ==> (from + 1 <= r.value.start && MatchAt(pat, s, r.value.start, r.value.end) &&
      forall p: nat, e: nat :: from + 1 <= p < r.value.start ==> !MatchAt(pat, s, p, e))
    requires r.None? ==> forall p: nat, e: nat :: from + 1 <= p ==> !MatchAt(pat, s, p, e)
    ensures r.Some? ==> (from <= r.value.start && MatchAt(pat, s, r.value.start, r.value.end) &&
      forall p: nat, e: nat :: from <= p < r.value.start ==> !MatchAt(pat, s, p, e))
    ensures r.None? ==> forall p: nat, e: nat :: from <= p ==> !MatchAt(pat, s, p, e)
  {
  }

  lemma NoMatchPastEnd(pat: Pattern, s: string, from: nat)
    requires from > |s|
    ensures forall p: nat, e: nat :: from <= p ==> !MatchAt(pat, s, p, e)
  {
  }

  /** The leftmost match of pat in s, if any. */
  function Search(pat: Pattern, s: string): (r: Option<Match>)
    ensures r.Some? ==> LeftmostMatch(pat, s, r.value.start, r.value.end)
    ensures r.None? <==> !Matches(pat, s)
  {
    SearchFrom(pat, s, 0)
  }

  /** The capture group of a match of pat. */
  function Group(pat: Pattern, s: string, m: Match): string
    requires m.start + |Lead(pat)| <= m.end <= |s|
  {
    s[m.start + |Lead(pat)|..m.end]
  }

  /** The capture group of the first of the three patterns that matches, tried in order. */
  function FirstGroup(s: string): Option<string> {
    match Search(Merger, s)
    case Some(m) => Some(Group(Merger, s, m))
    case None =>
      match Search(Destination, s)
      case Some(m) => Some(Group(Destination, s, m))
      case None =>
        match Search(AlreadyDownloaded, s)
        case Some(m) => Some(Group(AlreadyDownloaded, s, m))
        case None => None
  }

  /**
   * The `close` handler's decision, given the exit code (None when the
   * process was ended by a signal) and the whole stdout buffer.
   */
  function ExtractPath(code: Option<int>, stdout: string): (r: Result<string, string>)
    ensures code != Some(0) ==> r == Err(DOWNLOAD_FAILED)
    ensures code == Some(0) && r.Err? ==> r.error == NO_PATH
    ensures r.Ok? ==> NoLineTerminator(r.value)
  {
    if code != Some(0) then Err(DOWNLOAD_FAILED)
    else
      match FirstGroup(stdout)
      case None => Err(NO_PATH)
      case Some(g) =>
        FirstGroupIsLeftmost(stdout);
        TrimKeepsLineFree(g);
        Ok(Trim(g))
  }

  /**
   * With exit code 0, a pattern earlier in the order wins wherever the later
   * ones match, the path is the trimmed group of that pattern's leftmost
   * match, and the path is undeterminable only when no pattern matches.
   */
  lemma ExtractPathPriority(stdout: string)
    ensures (!Matches(Merger, stdout) && !Matches(Destination, stdout) &&
             !Matches(AlreadyDownloaded, stdout)) <==> ExtractPath(Some(0), stdout) == Err(NO_PATH)
    ensures forall p: nat, e: nat :: LeftmostMatch(Merger, stdout, p, e) ==>
      ExtractPath(Some(0), stdout) == Ok(Trim(Group(Merger, stdout, Match(p, e))))
    ensures forall p: nat, e: nat ::
      (!Matches(Merger, stdout) && LeftmostMatch(Destination, stdout, p, e)) ==>
      ExtractPath(Some(0), stdout) == Ok(Trim(Group(Destination, stdout, Match(p, e))))
    ensures forall p: nat, e: nat ::
      (!Matches(Merger, stdout) && !Matches(Destination, stdout) &&
       LeftmostMatch(AlreadyDownloaded, stdout, p, e)) ==>
      ExtractPath(Some(0), stdout) == Ok(Trim(Group(AlreadyDownloaded, stdout, Match(p, e))))
  {
    FirstGroupIsLeftmost(stdout);
  }

  /** FirstGroup returns the group of the leftmost match of the first pattern that matches. */
  lemma FirstGroupIsLeftmost(s: string)
    ensures FirstGroup(s).None? <==>
      !Matches(Merger, s) && !Matches(Destination, s) && !Matches(AlreadyDownloaded, s)
    ensures forall p: nat, e: nat :: LeftmostMatch(Merger, s, p, e) ==>
      FirstGroup(s) == Some(Group(Merger, s, Match(p, e)))
    ensures forall p: nat, e: nat :: !Matches(Merger, s) && LeftmostMatch(Destination, s, p, e) ==>
      FirstGroup(s) == Some(Group(Destination, s, Match(p, e)))
    ensures forall p: nat, e: nat ::
      (!Matches(Merger, s) && !Matches(Destination, s) && LeftmostMatch(AlreadyDownloaded, s, p, e)) ==>
      FirstGroup(s) == Some(Group(AlreadyDownloaded, s, Match(p, e)))
    ensures FirstGroup(s).Some? ==> NoLineTerminator(FirstGroup(s).value)
  {
    forall pat: Pattern, p: nat, e: nat | LeftmostMatch(pat, s, p, e)
      ensures Search(pat, s) == Some(Match(p, e))
    {
      var m := Search(pat, s).value;
      LeftmostUnique(pat, s, p, e, m.start, m.end);
    }
    forall pat: Pattern | Search(pat, s).Some?
      ensures NoLineTerminator(Group(pat, s, Search(pat, s).value))
    {
      var m := Search(pat, s).value;
      var g := Group(pat, s, m);
      var q := m.start + |Lead(pat)|;
      forall k | 0 <= k < |g| ensures !IsLineTerminator(g[k]) {
        assert g[k] == s[q + k];
      }
    }
  }

  /** The Merger lead holds its only `"` at its end, so a buffer without `"` has no Merger match. */
  lemma NoQuoteNoMerger(s: string)
    requires '"' !in s
    ensures !Matches(Merger, s)
  {
    forall p: nat, e: nat ensures !MatchAt(Merger, s, p, e) {
      if p + 30 < |s| {
        assert s[p + 30] in s;
      }
      PrefixCharMismatch(s, p, MERGER_LEAD, 30);
    }
  }

  /** b sits at position |a| of a + b + c. */
  lemma Embedded(a: string, b: string, c: string)
    ensures HasPrefixAt(a + b + c, |a|, b)
  {
    forall m | 0 <= m < |b| ensures (a + b + c)[|a| + m] == b[m] {
      assert (a + b + c)[|a| + m] == (a + b)[|a| + m];
    }
  }

  /** The path when Merger's leftmost match is at p with capture end e. */
  lemma MergerResult(s: string, p: nat, e: nat)
    requires LeftmostMatch(Merger, s, p, e)
    ensures ExtractPath(Some(0), s) == Ok(Trim(Group(Merger, s, Match(p, e))))
  {
    ExtractPathPriority(s);
  }

  /** The path when Merger does not match and Destination's leftmost match is at p with capture end e. */
  lemma DestinationResult(s: string, p: nat, e: nat)
    requires !Matches(Merger, s) && LeftmostMatch(Destination, s, p, e)
    ensures ExtractPath(Some(0), s) == Ok(Trim(Group(Destination, s, Match(p, e))))
  {
    ExtractPathPriority(s);
  }

  /** A Merger lead, a quote-free name and a `"` at p make a Merger match at p capturing the name. */
  lemma MergerLineMatch(s: string, p: nat, name: string)
    requires HasPrefixAt(s, p, MERGER_LEAD + name + "\"")
    requires '"' !in name && NoLineTerminator(name) && name != []
    ensures MatchAt(Merger, s, p, p + |MERGER_LEAD| + |name|)
    ensures s[p + |MERGER_LEAD|..p + |MERGER_LEAD| + |name|] == name
  {
    var q := p + |MERGER_LEAD|;
    var e := q + |name|;
    HasPrefixAtSplit(s, p, MERGER_LEAD + name, "\"");
    HasPrefixAtSplit(s, p, MERGER_LEAD, name);
    PrefixSlice(s, q, name);
    forall k | q < k < e ensures s[k] != '"' {
      assert s[k] == s[q..e][k - q];
    }
    PrefixChar(s, e, "\"", 0);
  }

  /** A Merger line at p with no `"` before p: its name, trimmed, is the path. */
  lemma MergerLineAt(s: string, p: nat, name: string)
    requires HasPrefixAt(s, p, MERGER_LEAD + name + "\"")
    requires '"' !in s[..p] && '"' !in name && NoLineTerminator(name) && name != []
    ensures ExtractPath(Some(0), s) == Ok(Trim(name))
  {
    var e := p + |MERGER_LEAD| + |name|;
    MergerLineLeftmost(s, p, name);
    MergerResult(s, p, e);
  }

  /** A Merger line at p with no `"` before p is the leftmost Merger match. */
  lemma MergerLineLeftmost(s: string, p: nat, name: string)
    requires HasPrefixAt(s, p, MERGER_LEAD + name + "\"")
    requires '"' !in s[..p] && '"' !in name && NoLineTerminator(name) && name != []
    ensures LeftmostMatch(Merger, s, p, p + |MERGER_LEAD| + |name|)
    ensures Group(Merger, s, Match(p, p + |MERGER_LEAD| + |name|)) == name
  {
    MergerLineMatch(s, p, name);
    MergerLeadFirst(s, p);
  }

  /** No Merger match starts inside a quote-free prefix before a Merger lead. */
  lemma MergerLeadFirst(s: string, p: nat)
    requires p <= |s| && '"' !in s[..p] && HasPrefixAt(s, p, MERGER_LEAD)
    ensures forall p': nat, e': nat :: p' < p ==> !MatchAt(Merger, s, p', e')
  {
    forall p': nat, e': nat | p' < p ensures !MatchAt(Merger, s, p', e') {
      if p' + 30 < p {
        assert s[p' + 30] == s[..p][p' + 30];
      } else {
        PrefixChar(s, p, MERGER_LEAD, p' + 30 - p);
        assert '"' !in MERGER_LEAD[..30];
        assert MERGER_LEAD[p' + 30 - p] == MERGER_LEAD[..30][p' + 30 - p];
      }
      PrefixCharMismatch(s, p', MERGER_LEAD, 30);
    }
  }

  /**
   * A Merger line wins over whatever comes before it (here: any quote-free
   * text, such as Destination lines of the separate formats), and its
   * quoted name is the path.
   */
  lemma MergerLineWins(before: string, name: string, after: string)
    requires '"' !in before && '"' !in name && NoLineTerminator(name)
    requires name != [] && !IsTrimmable(name[0]) && !IsTrimmable(name[|name| - 1])
    ensures ExtractPath(Some(0), before + MERGER_LEAD + name + "\"" + after) == Ok(name)
  {
    var s := before + MERGER_LEAD + name + "\"" + after;
    assert s == before + (MERGER_LEAD + name + "\"") + after;
    Embedded(before, MERGER_LEAD + name + "\"", after);
    assert s[..|before|] == before;
    MergerLineAt(s, |before|, name);
    TrimOfTrimmed(name);
  }

  /** A quote-free buffer that starts with a Destination line: the rest of that line, trimmed, is the path. */
  lemma DestinationLineAt(s: string, name: string)
    requires HasPrefixAt(s, 0, DESTINATION_LEAD + name) && '"' !in s
    requires NoLineTerminator(name) && name != []
    requires var e := |DESTINATION_LEAD| + |name|; e == |s| || IsLineTerminator(s[e])
    ensures ExtractPath(Some(0), s) == Ok(Trim(name))
  {
    NoQuoteNoMerger(s);
    DestinationLineLeftmost(s, name);
    DestinationResult(s, 0, |DESTINATION_LEAD| + |name|);
  }

  /** A Destination line at the start of s is the leftmost Destination match. */
  lemma DestinationLineLeftmost(s: string, name: string)
    requires HasPrefixAt(s, 0, DESTINATION_LEAD + name)
    requires NoLineTerminator(name) && name != []
    requires var e := |DESTINATION_LEAD| + |name|; e == |s| || IsLineTerminator(s[e])
    ensures LeftmostMatch(Destination, s, 0, |DESTINATION_LEAD| + |name|)
    ensures Group(Destination, s, Match(0, |DESTINATION_LEAD| + |name|)) == name
  {
    HasPrefixAtSplit(s, 0, DESTINATION_LEAD, name);
    PrefixSlice(s, |DESTINATION_LEAD|, name);
  }

  /**
   * Without a Merger line, a Destination line at the start gives its rest of
   * line, whatever (quote-free) lines follow.
   */
  lemma DestinationLineWins(name: string, after: string)
    requires '"' !in name && '"' !in after && NoLineTerminator(name)
    requires name != [] && !IsTrimmable(name[0]) && !IsTrimmable(name[|name| - 1])
    ensures ExtractPath(Some(0), DESTINATION_LEAD + name + "\n" + after) == Ok(name)
  {
    var s := DESTINATION_LEAD + name + "\n" + after;
    assert s == [] + (DESTINATION_LEAD + name) + ("\n" + after);
    Embedded([], DESTINATION_LEAD + name, "\n" + after);
    assert s[|DESTINATION_LEAD| + |name|] == '\n';
    assert '"' !in DESTINATION_LEAD;
    DestinationLineAt(s, name);
    TrimOfTrimmed(name);
  }

  /**
   * A Destination line whose rest is only white space gives the empty path:
   * a success, not the undeterminable-path error.
   */
  lemma BlankDestinationIsEmptyPath(blank: string)
    requires blank != [] && NoLineTerminator(blank)
    requires forall k :: 0 <= k < |blank| ==> IsTrimmable(blank[k])
    ensures ExtractPath(Some(0), DESTINATION_LEAD + blank) == Ok("")
  {
    var s := DESTINATION_LEAD + blank;
    assert '"' !in blank by {
      forall k | 0 <= k < |blank| ensures blank[k] != '"' {
        assert IsTrimmable(blank[k]);
      }
    }
    assert '"' !in DESTINATION_LEAD;
    assert s == [] + s + [];
    Embedded([], s, []);
    DestinationLineAt(s, blank);
    TrimAllTrimmable(blank);
  }

  /** The path when neither Merger nor Destination matches and the already-downloaded pattern's leftmost match is at p with capture end e. */
  lemma AlreadyDownloadedResult(s: string, p: nat, e: nat)
    requires !Matches(Merger, s) && !Matches(Destination, s) && LeftmostMatch(AlreadyDownloaded, s, p, e)
    ensures ExtractPath(Some(0), s) == Ok(Trim(Group(AlreadyDownloaded, s, Match(p, e))))
  {
    ExtractPathPriority(s);
  }

  /**
   * The characters of `[download] ` + name + ` has already been downloaded`:
   * no `"` when name has none, and no `[` after the first when name has none.
   */
  lemma AlreadyLineChars(s: string, name: string)
    requires s == ALREADY_LEAD + name + ALREADY_TAIL
    requires '"' !in name && '[' !in name
    ensures '"' !in s
    ensures forall k :: 0 < k < |s| ==> s[k] != '['
  {
    assert '"' !in ALREADY_LEAD && '"' !in ALREADY_TAIL;
    var n := |ALREADY_LEAD| + |name|;
    forall k | 0 < k < |s| ensures s[k] != '[' {
      if k < |ALREADY_LEAD| {
        assert s[k] == ALREADY_LEAD[k];
        assert '[' !in ALREADY_LEAD[1..];
        assert ALREADY_LEAD[k] == ALREADY_LEAD[1..][k - 1];
      } else if k < n {
        assert s[k] == name[k - |ALREADY_LEAD|];
      } else {
        assert s[k] == ALREADY_TAIL[k - n];
        assert '[' !in ALREADY_TAIL;
      }
    }
  }

  /**
   * In `[download] ` + name + ` has already been downloaded`, with no `"` or
   * `[` in name and name not starting with `D`, neither Merger nor
   * Destination matches.
   */
  lemma AlreadyLineNoOther(s: string, name: string)
    requires s == ALREADY_LEAD + name + ALREADY_TAIL
    requires name != [] && '"' !in name && '[' !in name && name[0] != 'D'
    ensures !Matches(Merger, s) && !Matches(Destination, s)
  {
    AlreadyLineChars(s, name);
    NoQuoteNoMerger(s);
    assert s[11] == name[0];
    forall p: nat, e: nat ensures !MatchAt(Destination, s, p, e) {
      if p == 0 {
        PrefixCharMismatch(s, 0, DESTINATION_LEAD, 11);
      } else {
        PrefixCharMismatch(s, p, DESTINATION_LEAD, 0);
      }
    }
  }

  /** A whole buffer `[download] ` + name + ` has already been downloaded` is the leftmost match of that pattern, capturing name. */
  lemma AlreadyLineLeftmost(s: string, name: string)
    requires HasPrefixAt(s, 0, ALREADY_LEAD + name + ALREADY_TAIL)
    requires |s| == |ALREADY_LEAD| + |name| + |ALREADY_TAIL|
    requires name != [] && NoLineTerminator(name)
    ensures LeftmostMatch(AlreadyDownloaded, s, 0, |ALREADY_LEAD| + |name|)
    ensures Group(AlreadyDownloaded, s, Match(0, |ALREADY_LEAD| + |name|)) == name
  {
    HasPrefixAtSplit(s, 0, ALREADY_LEAD + name, ALREADY_TAIL);
    HasPrefixAtSplit(s, 0, ALREADY_LEAD, name);
    PrefixSlice(s, |ALREADY_LEAD|, name);
  }

  /**
   * With only an already-downloaded line (its name free of `"` and `[`, and
   * not starting with `D`, so that neither other pattern matches), its name
   * is the path.
   */
  lemma AlreadyDownloadedLineWins(name: string)
    requires name != [] && '"' !in name && '[' !in name && name[0] != 'D' && NoLineTerminator(name)
    requires !IsTrimmable(name[0]) && !IsTrimmable(name[|name| - 1])
    ensures ExtractPath(Some(0), ALREADY_LEAD + name + ALREADY_TAIL) == Ok(name)
  {
    var s := ALREADY_LEAD + name + ALREADY_TAIL;
    AlreadyLineNoOther(s, name);
    assert HasPrefixAt(s, 0, ALREADY_LEAD + name + ALREADY_TAIL);
    AlreadyLineLeftmost(s, name);
    AlreadyDownloadedResult(s, 0, |ALREADY_LEAD| + |name|);
    TrimOfTrimmed(name);
  }

  /** No line terminator in a + b exactly when none in a and none in b. */
  lemma NoLineTerminatorConcat(a: string, b: string)
    ensures NoLineTerminator(a + b) <==> NoLineTerminator(a) && NoLineTerminator(b)
  {
    if NoLineTerminator(a + b) {
      forall k | 0 <= k < |a| ensures !IsLineTerminator(a[k]) {
        assert a[k] == (a + b)[k];
      }
      forall k | 0 <= k < |b| ensures !IsLineTerminator(b[k]) {
        assert b[k] == (a + b)[|a| + k];
      }
    }
  }

  /** A name that contains the tail text keeps the conditions of AlreadyDownloadedLineWins. */
  lemma TailInsideName(a: string, b: string)
    requires a != [] && b != [] && a[0] != 'D' && !IsTrimmable(a[0]) && !IsTrimmable(b[|b| - 1])
    requires '"' !in a && '"' !in b && '[' !in a && '[' !in b
    requires NoLineTerminator(a) && NoLineTerminator(b)
    ensures var name := a + ALREADY_TAIL + b;
      name != [] && '"' !in name && '[' !in name && name[0] != 'D' && NoLineTerminator(name) &&
      !IsTrimmable(name[0]) && !IsTrimmable(name[|name| - 1])
  {
    var name := a + ALREADY_TAIL + b;
    assert '"' !in ALREADY_TAIL && '[' !in ALREADY_TAIL;
    assert NoLineTerminator(ALREADY_TAIL);
    NoLineTerminatorConcat(a, ALREADY_TAIL);
    NoLineTerminatorConcat(a + ALREADY_TAIL, b);
    assert name[0] == a[0] && name[|name| - 1] == b[|b| - 1];
  }

  /**
   * The greedy group backs off to the LAST ` has already been downloaded` on
   * the line: for a name that itself holds the tail text, the path is the
   * whole name, up to the second occurrence.
   */
  lemma GreedyTakesLastTail(a: string, b: string)
    requires a != [] && b != [] && a[0] != 'D' && !IsTrimmable(a[0]) && !IsTrimmable(b[|b| - 1])
    requires '"' !in a && '"' !in b && '[' !in a && '[' !in b
    requires NoLineTerminator(a) && NoLineTerminator(b)
    ensures ExtractPath(Some(0), ALREADY_LEAD + (a + ALREADY_TAIL + b) + ALREADY_TAIL) == Ok(a + ALREADY_TAIL + b)
  {
    TailInsideName(a, b);
    AlreadyDownloadedLineWins(a + ALREADY_TAIL + b);
  }

  /** The capture does not stop at the first occurrence of the tail text when a later one is on the line. */
  lemma GreedySkipsEarlierTail(a: string, b: string)
    requires a != [] && NoLineTerminator(a) && NoLineTerminator(b)
    ensures !MatchAt(AlreadyDownloaded, ALREADY_LEAD + (a + ALREADY_TAIL + b) + ALREADY_TAIL, 0, |ALREADY_LEAD| + |a|)
  {
    var name := a + ALREADY_TAIL + b;
    var s := ALREADY_LEAD + name + ALREADY_TAIL;
    assert NoLineTerminator(ALREADY_TAIL);
    NoLineTerminatorConcat(a, ALREADY_TAIL);
    NoLineTerminatorConcat(a + ALREADY_TAIL, b);
    assert HasPrefixAt(s, 0, ALREADY_LEAD + name + ALREADY_TAIL);
    AlreadyLineLeftmost(s, name);
    MatchAtNotBefore(AlreadyDownloaded, s, 0, |ALREADY_LEAD| + |a|, |ALREADY_LEAD| + |name|);
  }
}
