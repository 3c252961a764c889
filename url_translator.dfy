/**
 * The two URL helpers of the plugin: `validateURL`, a PCRE match against
 *   /http[s]?:[\/]{2}github\.com\/[A-z0-9|\-|\_]+\/[A-z0-9|\-|\_]+$/
 * and `apiURL`, a `preg_replace` of `://github.com/` by
 * `://api.github.com/repos/` followed by `/commits`.
 */
module UrlTranslator {

  /** `:` `//` `github.com` `/`, the text `apiURL`'s pattern matches. */
  const GITHUB_HOST := "://github.com/"
  /** What `apiURL` puts in its place. */
  const API_HOST := "://api.github.com/repos/"
  const COMMITS_SUFFIX := "/commits"

  predicate EndsWith(s: string, suffix: string) {
    |suffix| <= |s| && s[|s| - |suffix|..] == suffix
  }

  predicate HasNoColon(s: string) {
    forall i :: 0 <= i < |s| ==> s[i] != ':'
  }

  // ---------------------------------------------------------------------------
  // validateURL
  // ---------------------------------------------------------------------------

  /**
   * A byte of the class `[A-z0-9|\-|\_]`: the ASCII range 'A'..'z' (which
   * also holds `[`, `\`, `]`, `^`, `_` and the backtick), a digit, or one of
   * the literals `|`, `-`, `_`.
   */
  predicate IsSegmentChar(c: char) {
    ('A' <= c <= 'z') || ('0' <= c <= '9') || c == '|' || c == '-' || c == '_'
  }

  /** One `[A-z0-9|\-|\_]+`: a non-empty run of segment bytes. */
  predicate IsSegment(s: string) {
    |s| > 0 && forall i :: 0 <= i < |s| ==> IsSegmentChar(s[i])
  }

  /**
   * The length of the longest run of segment bytes that ends just before
   * position `end` of `s`.
   */
  function SegmentRunBefore(s: string, end: nat): (n: nat)
    requires end <= |s|
    ensures n <= end
    ensures n < end ==> !IsSegmentChar(s[end - n - 1])
    decreases end
  {
    if end == 0 || !IsSegmentChar(s[end - 1]) then 0
    else SegmentRunBefore(s, end - 1) + 1
  }

  /** Every byte of the run is a segment byte. */
  lemma {:induction false} RunHoldsSegmentChars(s: string, end: nat)
    requires end <= |s|
    ensures forall i :: end - SegmentRunBefore(s, end) <= i < end ==> IsSegmentChar(s[i])
    decreases end
  {
    if end > 0 && IsSegmentChar(s[end - 1]) {
      RunHoldsSegmentChars(s, end - 1);
    }
  }

  function Scheme(secure: bool): string {
    if secure then "https" else "http"
  }

  /** `http[s]?://github.com/`. */
  function HostPrefix(secure: bool): string {
    Scheme(secure) + GITHUB_HOST
  }

  /** Whether `s` ends with `http://github.com/` or `https://github.com/`. */
  predicate EndsWithHostPrefix(s: string) {
    EndsWith(s, HostPrefix(false)) || EndsWith(s, HostPrefix(true))
  }

  /**
   * Whether some suffix of `t` is `http[s]?://github.com/<seg>/<seg>`.
   * Segment bytes exclude `/`, so the repository segment must be the whole
   * trailing run of segment bytes and the owner segment the whole run before
   * the `/` that precedes it.
   */
  predicate MatchesAtEnd(t: string) {
    0 < RepoStart(t) < |t| && t[RepoStart(t) - 1] == '/' &&
    OwnerStart(t) < RepoStart(t) - 1 && HostPrefixBefore(t, OwnerStart(t))
  }

  /** Where the scan puts the repository segment: after the trailing run of segment bytes. */
  function RepoStart(t: string): nat {
    |t| - SegmentRunBefore(t, |t|)
  }

  /** Where the scan puts the owner segment: the run before the byte preceding the repository. */
  function OwnerStart(t: string): nat
    requires 0 < RepoStart(t)
  {
    RepoStart(t) - 1 - SegmentRunBefore(t, RepoStart(t) - 1)
  }

  /** Whether `t` holds a host prefix just before position `ownerStart`. */
  predicate HostPrefixBefore(t: string, ownerStart: nat)
    requires ownerStart <= |t|
  {
    EndsWithHostPrefix(t[..ownerStart])
  }

  /**
   * `validateURL`: the pattern is not anchored at the start, and PCRE's `$`
   * matches at the very end or just before a final newline.
   */
  predicate ValidateURL(url: string) {
    MatchesAtEnd(url) || (|url| > 0 && url[|url| - 1] == '\n' && MatchesAtEnd(url[..|url| - 1]))
  }

  /** A string the pattern is written to match: anything, a repository URL, then `""` or `"\n"`. */
  function RepoUrl(prefix: string, secure: bool, owner: string, repo: string, trailer: string): string {
    prefix + HostPrefix(secure) + owner + "/" + repo + trailer
  }

  /** A repository URL with a trailer is the one without, followed by the trailer. */
  lemma RepoUrlWithTrailer(prefix: string, secure: bool, owner: string, repo: string, trailer: string)
    ensures RepoUrl(prefix, secure, owner, repo, trailer) == (prefix + HostPrefix(secure)) + owner + "/" + repo + trailer
    ensures RepoUrl(prefix, secure, owner, repo, trailer) == RepoUrl(prefix, secure, owner, repo, "") + trailer
  {
    AppendEmpty(prefix + HostPrefix(secure) + owner + "/" + repo);
  }

  lemma AppendEmpty(s: string)
    ensures s + "" == s
  {
  }

  /** The regular expression's language, stated directly. */
  ghost predicate MatchesRepoPattern(url: string) {
    exists prefix, secure, owner, repo, trailer ::
      IsSegment(owner) && IsSegment(repo) && (trailer == "" || trailer == "\n") &&
      url == RepoUrl(prefix, secure, owner, repo, trailer)
  }

  /** After a byte outside the class, the run is exactly the segment bytes that follow it. */
  lemma {:induction false} RunAfterSeparator(s: string, separator: nat, end: nat)
    requires separator < end <= |s| && !IsSegmentChar(s[separator])
    requires forall i :: separator < i < end ==> IsSegmentChar(s[i])
    ensures SegmentRunBefore(s, end) == end - separator - 1
    decreases end
  {
    if end > separator + 1 {
      RunAfterSeparator(s, separator, end - 1);
    }
  }

  /** The run before `end` only looks at the bytes before `end`. */
  lemma {:induction false} RunIgnoresLater(s: string, more: string, end: nat)
    requires end <= |s|
    ensures SegmentRunBefore(s + more, end) == SegmentRunBefore(s, end)
    decreases end
  {
    if end > 0 {
      assert (s + more)[end - 1] == s[end - 1];
      RunIgnoresLater(s, more, end - 1);
    }
  }

  /** A run, when not empty, is a segment. */
  lemma RunIsSegment(s: string, end: nat)
    requires end <= |s| && SegmentRunBefore(s, end) > 0
    ensures IsSegment(s[end - SegmentRunBefore(s, end)..end])
  {
    var n := SegmentRunBefore(s, end);
    var run := s[end - n..end];
    RunHoldsSegmentChars(s, end);
    forall i | 0 <= i < |run| ensures IsSegmentChar(run[i]) {
      assert run[i] == s[end - n + i];
    }
  }

  lemma EndsWithTransitive(s: string, middle: string, suffix: string)
    requires EndsWith(s, middle) && EndsWith(middle, suffix)
    ensures EndsWith(s, suffix)
  {
    assert s[|s| - |suffix|..] == s[|s| - |middle|..][|middle| - |suffix|..];
  }

  lemma EndsWithAppend(s: string, suffix: string)
    ensures EndsWith(s + suffix, suffix)
  {
    assert (s + suffix)[|s|..] == suffix;
  }

  /** Whatever ends with a host prefix ends with `://github.com/`, and so with `/`. */
  lemma HostPrefixEndsWithHost(s: string)
    requires EndsWithHostPrefix(s)
    ensures EndsWith(s, GITHUB_HOST) && s[|s| - 1] == '/'
  {
    var secure := EndsWith(s, HostPrefix(true));
    EndsWithAppend(Scheme(secure), GITHUB_HOST);
    EndsWithTransitive(s, HostPrefix(secure), GITHUB_HOST);
    assert s[|s| - |GITHUB_HOST|..][|GITHUB_HOST| - 1] == s[|s| - 1];
  }

  /** A string that ends with `suffix` is what comes before it followed by `suffix`. */
  lemma SplitBeforeSuffix(s: string, suffix: string)
    requires EndsWith(s, suffix)
    ensures s == s[..|s| - |suffix|] + suffix
  {
  }

  /** `t` cut at a `/` in position `slash`, and once more at `start`. */
  lemma SplitAroundSlash(t: string, start: nat, slash: nat)
    requires start <= slash < |t| && t[slash] == '/'
    ensures t == t[..start] + t[start..slash] + "/" + t[slash + 1..|t|]
  {
    assert t[..slash + 1] == t[..start] + t[start..slash] + "/";
  }

  /** The scan succeeds when a host prefix, a segment, a `/` and a segment end `t`. */
  lemma MatchFromParts(t: string, ownerStart: nat, slash: nat)
    requires 0 < ownerStart < slash < |t| - 1 && t[slash] == '/'
    requires !IsSegmentChar(t[ownerStart - 1])
    requires IsSegment(t[ownerStart..slash]) && IsSegment(t[slash + 1..])
    requires HostPrefixBefore(t, ownerStart)
    ensures MatchesAtEnd(t)
  {
    SegmentFrom(t, slash + 1);
    SegmentBetween(t, ownerStart, slash);
    RunAfterSeparator(t, slash, |t|);
    RunAfterSeparator(t, ownerStart - 1, slash);
  }

  /** The pieces of `a + b + "/" + c`, read back by position. */
  lemma PartsOfJoin(a: string, b: string, c: string)
    ensures var t := a + b + "/" + c;
      t[..|a|] == a && t[|a|..|a| + |b|] == b && t[|a| + |b|] == '/' && t[|a| + |b| + 1..] == c
  {
  }

  /** Whatever precedes it, a host prefix ends like one, with a `/`. */
  lemma HostPrefixAfter(prefix: string, secure: bool)
    ensures EndsWithHostPrefix(prefix + HostPrefix(secure))
    ensures (prefix + HostPrefix(secure))[|prefix + HostPrefix(secure)| - 1] == '/'
  {
    EndsWithAppend(prefix, HostPrefix(secure));
    HostPrefixEndsWithHost(prefix + HostPrefix(secure));
  }

  /** The pieces of a repository URL without a trailer, read back by position. */
  lemma RepoUrlParts(prefix: string, secure: bool, owner: string, repo: string)
    ensures var t, h := RepoUrl(prefix, secure, owner, repo, ""), |prefix + HostPrefix(secure)|;
      t[..h] == prefix + HostPrefix(secure) && t[h..h + |owner|] == owner &&
      t[h + |owner|] == '/' && t[h + |owner| + 1..] == repo
  {
    var host := prefix + HostPrefix(secure);
    RepoUrlWithTrailer(prefix, secure, owner, repo, "");
    AppendEmpty(host + owner + "/" + repo);
    PartsOfJoin(host, owner, repo);
  }

  /** Every repository URL without a trailer is found by the suffix scan. */
  lemma MatchesAtEndOfRepoUrl(prefix: string, secure: bool, owner: string, repo: string)
    requires IsSegment(owner) && IsSegment(repo)
    ensures MatchesAtEnd(RepoUrl(prefix, secure, owner, repo, ""))
  {
    var t := RepoUrl(prefix, secure, owner, repo, "");
    var h := |prefix + HostPrefix(secure)|;
    RepoUrlParts(prefix, secure, owner, repo);
    HostPrefixAfter(prefix, secure);
    assert t[h - 1] == t[..h][h - 1];
    MatchFromParts(t, h, h + |owner|);
  }

  /** The two runs the suffix scan finds, and what each holds. */
  lemma MatchParts(t: string) returns (ownerStart: nat, slash: nat)
    requires MatchesAtEnd(t)
    ensures ownerStart < slash < |t| - 1 && t[slash] == '/'
    ensures IsSegment(t[ownerStart..slash]) && IsSegment(t[slash + 1..|t|])
    ensures HostPrefixBefore(t, ownerStart)
  {
    slash := RepoStart(t) - 1;
    ownerStart := OwnerStart(t);
    RunIsSegment(t, |t|);
    RunIsSegment(t, slash);
  }

  /** Which of the two host prefixes a string ends with. */
  lemma HostPrefixChosen(t: string, k: nat) returns (secure: bool)
    requires k <= |t| && HostPrefixBefore(t, k)
    ensures EndsWith(t[..k], HostPrefix(secure))
  {
    secure := EndsWith(t[..k], HostPrefix(true));
  }

  /** The pieces the suffix scan found, as a repository URL. */
  lemma RepoUrlOfMatch(t: string) returns (prefix: string, secure: bool, owner: string, repo: string)
    requires MatchesAtEnd(t)
    ensures IsSegment(owner) && IsSegment(repo)
    ensures t == RepoUrl(prefix, secure, owner, repo, "")
  {
    var ownerStart, slash := MatchParts(t);
    secure := HostPrefixChosen(t, ownerStart);
    var host := t[..ownerStart];
    prefix := host[..|host| - |HostPrefix(secure)|];
    owner := t[ownerStart..slash];
    repo := t[slash + 1..|t|];
    SplitBeforeSuffix(host, HostPrefix(secure));
    SplitAroundSlash(t, ownerStart, slash);
    RepoUrlWithTrailer(prefix, secure, owner, repo, "");
  }

  /** A string the scan accepts is a repository URL with no trailer. */
  lemma MatchIsInPattern(t: string)
    requires MatchesAtEnd(t)
    ensures MatchesRepoPattern(t)
  {
    var prefix, secure, owner, repo := RepoUrlOfMatch(t);
    assert t == RepoUrl(prefix, secure, owner, repo, "");
  }

  /** A string the scan accepts, followed by a newline, is a repository URL with the `"\n"` trailer. */
  lemma MatchWithNewlineIsInPattern(body: string)
    requires MatchesAtEnd(body)
    ensures MatchesRepoPattern(body + "\n")
  {
    var prefix, secure, owner, repo := RepoUrlOfMatch(body);
    RepoUrlWithTrailer(prefix, secure, owner, repo, "\n");
    assert body + "\n" == RepoUrl(prefix, secure, owner, repo, "\n");
  }

  /** Every string `validateURL` accepts is in the pattern's language. */
  lemma ValidateURLSound(url: string)
    requires ValidateURL(url)
    ensures MatchesRepoPattern(url)
  {
    if MatchesAtEnd(url) {
      MatchIsInPattern(url);
    } else {
      var body := url[..|url| - 1];
      assert url == body + "\n";
      MatchWithNewlineIsInPattern(body);
    }
  }

  /** Every string in the pattern's language is accepted by `validateURL`. */
  lemma ValidateURLComplete(prefix: string, secure: bool, owner: string, repo: string, trailer: string)
    requires IsSegment(owner) && IsSegment(repo) && (trailer == "" || trailer == "\n")
    ensures ValidateURL(RepoUrl(prefix, secure, owner, repo, trailer))
  {
    var body := RepoUrl(prefix, secure, owner, repo, "");
    MatchesAtEndOfRepoUrl(prefix, secure, owner, repo);
    RepoUrlWithTrailer(prefix, secure, owner, repo, trailer);
    if trailer == "\n" {
      assert (body + trailer)[..|body|] == body;
    }
  }

  /** `validateURL` accepts exactly the language of its regular expression. */
  lemma ValidateURLMatchesPattern(url: string)
    ensures ValidateURL(url) <==> MatchesRepoPattern(url)
  {
    if ValidateURL(url) {
      ValidateURLSound(url);
    }
    if MatchesRepoPattern(url) {
      var prefix, secure, owner, repo, trailer :|
        IsSegment(owner) && IsSegment(repo) && (trailer == "" || trailer == "\n") &&
        url == RepoUrl(prefix, secure, owner, repo, trailer);
      ValidateURLComplete(prefix, secure, owner, repo, trailer);
    }
  }

  /** Anything may come before the repository URL. */
  lemma ValidateURLIgnoresPrefix(before: string, url: string)
    requires ValidateURL(url)
    ensures ValidateURL(before + url)
  {
    ValidateURLSound(url);
    var prefix, secure, owner, repo, trailer :|
      IsSegment(owner) && IsSegment(repo) && (trailer == "" || trailer == "\n") &&
      url == RepoUrl(prefix, secure, owner, repo, trailer);
    RepoUrlPrepend(before, prefix, secure, owner, repo, trailer);
    ValidateURLComplete(before + prefix, secure, owner, repo, trailer);
  }

  lemma RepoUrlPrepend(before: string, prefix: string, secure: bool, owner: string, repo: string, trailer: string)
    ensures before + RepoUrl(prefix, secure, owner, repo, trailer) == RepoUrl(before + prefix, secure, owner, repo, trailer)
  {
    PrependToJoin(before, prefix, HostPrefix(secure), owner, repo, trailer);
  }

  lemma PrependToJoin(before: string, prefix: string, host: string, owner: string, repo: string, trailer: string)
    ensures before + (prefix + host + owner + "/" + repo + trailer) ==
            before + prefix + host + owner + "/" + repo + trailer
  {
  }

  /** A trailing slash is rejected. */
  lemma ValidateURLRejectsTrailingSlash(url: string)
    ensures !ValidateURL(url + "/")
  {
    var t := url + "/";
    assert t[|t| - 1] == '/';
  }

  lemma NotEndsWithAt(s: string, suffix: string, k: nat)
    requires |suffix| <= |s| && k < |suffix| && s[|s| - |suffix| + k] != suffix[k]
    ensures !EndsWith(s, suffix)
  {
    assert s[|s| - |suffix|..][k] == s[|s| - |suffix| + k];
  }

  /** A string that does not end with `://github.com/` ends with neither host prefix. */
  lemma NoHostNoPrefix(s: string)
    requires !EndsWith(s, GITHUB_HOST)
    ensures !EndsWithHostPrefix(s)
  {
    if EndsWithHostPrefix(s) {
      HostPrefixEndsWithHost(s);
    }
  }

  /** Every byte from `start` on in `t` is a segment byte. */
  lemma SegmentFrom(t: string, start: nat)
    requires start < |t| && IsSegment(t[start..])
    ensures forall i :: start <= i < |t| ==> IsSegmentChar(t[i])
  {
    assert forall i :: start <= i < |t| ==> t[i] == t[start..][i - start];
  }

  /** In `url + "/" + segment`, the `/` and, after it, only segment bytes. */
  lemma SlashThenSegment(url: string, segment: string)
    requires IsSegment(segment)
    ensures (url + "/" + segment)[|url|] == '/'
    ensures forall i :: |url| < i < |url + "/" + segment| ==> IsSegmentChar((url + "/" + segment)[i])
  {
    var t := url + "/" + segment;
    assert forall i :: |url| < i < |t| ==> t[i] == segment[i - |url| - 1];
  }

  /** A slice of `url` is the same slice of anything `url` begins. */
  lemma SliceOfJoin(url: string, rest: string, a: nat, b: nat)
    requires a <= b <= |url|
    ensures (url + rest)[a..b] == url[a..b]
  {
  }

  /** Every byte of `t` between `start` and `end` is a segment byte. */
  lemma SegmentBetween(t: string, start: nat, end: nat)
    requires start < end <= |t| && IsSegment(t[start..end])
    ensures forall i :: start <= i < end ==> IsSegmentChar(t[i])
  {
    assert forall i :: start <= i < end ==> t[i] == t[start..end][i - start];
  }

  /** What the scan of `url + "/" + segment` demands of `url`: a host prefix, then one segment. */
  lemma ScanPastExtraSegment(url: string, segment: string) returns (k: nat)
    requires IsSegment(segment) && MatchesAtEnd(url + "/" + segment)
    ensures k < |url| && HostPrefixBefore(url, k) && IsSegment(url[k..])
  {
    var t := url + "/" + segment;
    var ownerStart, slash := MatchParts(t);
    SegmentBetween(t, slash + 1, |t|);
    SlashThenSegment(url, segment);
    assert slash == |url|;
    k := ownerStart;
    SliceOfJoin(url, "/" + segment, 0, ownerStart);
    SliceOfJoin(url, "/" + segment, ownerStart, slash);
    assert t == url + ("/" + segment);
    assert url[ownerStart..slash] == url[ownerStart..];
  }

  /** `://github.com/` ends with `/`, so nothing ending in a segment byte ends with it. */
  lemma SegmentByteEndsNoHost(h: string)
    requires |h| > 0 && IsSegmentChar(h[|h| - 1])
    ensures !EndsWith(h, GITHUB_HOST)
  {
    if |h| >= |GITHUB_HOST| {
      NotEndsWithAt(h, GITHUB_HOST, 13);
    }
  }

  /**
   * `/<segment>/` never ends `://github.com/`: four or more segment bytes
   * would cover the `.`, and fewer put the first `/` on `o`, `c` or `.`.
   */
  lemma OwnerEndsNoHost(h: string, start: nat)
    requires 0 < start < |h| - 1 && h[start - 1] == '/' && h[|h| - 1] == '/'
    requires forall i :: start <= i < |h| - 1 ==> IsSegmentChar(h[i])
    ensures !EndsWith(h, GITHUB_HOST)
  {
    var ownerLength := |h| - 1 - start;
    if |h| >= |GITHUB_HOST| {
      if ownerLength >= 4 {
        NotEndsWithAt(h, GITHUB_HOST, 9);
      } else {
        NotEndsWithAt(h, GITHUB_HOST, 12 - ownerLength);
      }
    }
  }

  /**
   * In an accepted URL no host prefix comes just before a final segment: that
   * segment would be the repository, and the owner before it cannot end the host.
   */
  lemma OwnerIsNotHost(url: string, k: nat)
    requires MatchesAtEnd(url) && k < |url| && IsSegment(url[k..])
    ensures !HostPrefixBefore(url, k)
  {
    var ownerStart, slash := MatchParts(url);
    SegmentFrom(url, k);
    SegmentBetween(url, slash + 1, |url|);
    assert k > slash;
    if k - 1 > slash {
      InsideRepoIsNotHost(url, k);
    } else {
      AfterOwnerIsNotHost(url, ownerStart, slash, k);
    }
  }

  /** Inside a segment, the byte before is a segment byte, which no host prefix ends with. */
  lemma InsideRepoIsNotHost(url: string, k: nat)
    requires 0 < k <= |url| && IsSegmentChar(url[k - 1])
    ensures !HostPrefixBefore(url, k)
  {
    var host := url[..k];
    assert host[k - 1] == url[k - 1];
    SegmentByteEndsNoHost(host);
    NoHostNoPrefix(host);
  }

  /** Just after the `/` that ends the owner segment, no host prefix ends. */
  lemma AfterOwnerIsNotHost(url: string, ownerStart: nat, slash: nat, k: nat)
    requires ownerStart < slash < |url| - 1 && url[slash] == '/' && k == slash + 1
    requires IsSegment(url[ownerStart..slash]) && HostPrefixBefore(url, ownerStart)
    ensures !HostPrefixBefore(url, k)
  {
    var host := url[..k];
    SegmentBetween(url, ownerStart, slash);
    HostPrefixEndsWithHost(url[..ownerStart]);
    assert host[ownerStart - 1] == url[..ownerStart][ownerStart - 1];
    assert host[slash] == url[slash];
    assert forall i :: ownerStart <= i < slash ==> host[i] == url[i];
    OwnerEndsNoHost(host, ownerStart);
    NoHostNoPrefix(host);
  }

  /**
   * A path segment after an accepted URL is rejected: the owner segment
   * would have to end the host, and `github.com` holds a `.`; after a final
   * newline the scan cannot even pass the `\n`, which is no segment byte.
   */
  lemma ValidateURLRejectsExtraSegment(url: string, segment: string)
    requires ValidateURL(url)
    requires IsSegment(segment)
    ensures !ValidateURL(url + "/" + segment)
  {
    var t := url + "/" + segment;
    assert t[|t| - 1] == segment[|segment| - 1];
    if MatchesAtEnd(t) {
      var k := ScanPastExtraSegment(url, segment);
      assert url[k..][|url| - k - 1] == url[|url| - 1];
      OwnerIsNotHost(url, k);
      assert false;
    }
  }

  // ---------------------------------------------------------------------------
  // apiURL
  // ---------------------------------------------------------------------------

  /** Whether `GITHUB_HOST` occurs in `s` at position `i`. */
  predicate HostAt(s: string, i: nat) {
    i + |GITHUB_HOST| <= |s| && s[i..i + |GITHUB_HOST|] == GITHUB_HOST
  }

  /**
   * `preg_replace` of `/:[\/]{2}github[\.]com[\/]/` by `API_HOST`: a single
   * left-to-right pass that replaces each occurrence and resumes after it.
   */
  function ReplaceHost(s: string): string {
    if |s| < |GITHUB_HOST| then s
    else if s[..|GITHUB_HOST|] == GITHUB_HOST then API_HOST + ReplaceHost(s[|GITHUB_HOST|..])
    else [s[0]] + ReplaceHost(s[1..])
  }

  /** Text without a `:` holds no occurrence and comes through unchanged. */
  lemma {:induction false} ReplaceHostKeepsColonFree(s: string)
    requires HasNoColon(s)
    ensures ReplaceHost(s) == s
  {
    if |s| >= |GITHUB_HOST| {
      assert s[..|GITHUB_HOST|][0] != ':';
      ReplaceHostKeepsColonFree(s[1..]);
    }
  }

  /** A colon-free lead cannot start an occurrence, so it is copied as it is. */
  lemma {:induction false} ReplaceHostSkipsColonFree(lead: string, rest: string)
    requires HasNoColon(lead)
    ensures ReplaceHost(lead + rest) == lead + ReplaceHost(rest)
  {
    var s := lead + rest;
    if lead != [] && |s| >= |GITHUB_HOST| {
      assert s[..|GITHUB_HOST|][0] == lead[0] != GITHUB_HOST[0];
      assert ReplaceHost(s) == [s[0]] + ReplaceHost(s[1..]);
      assert s[1..] == lead[1..] + rest;
      ReplaceHostSkipsColonFree(lead[1..], rest);
      assert lead == [lead[0]] + lead[1..];
    } else if lead == [] {
      assert s == rest;
    } else {
      assert |rest| < |GITHUB_HOST|;
    }
  }

  /** An occurrence at the front is replaced and the scan resumes after it. */
  lemma ReplaceHostAtFront(rest: string)
    ensures ReplaceHost(GITHUB_HOST + rest) == API_HOST + ReplaceHost(rest)
  {
    var s := GITHUB_HOST + rest;
    assert s[..|GITHUB_HOST|] == GITHUB_HOST;
    assert s[|GITHUB_HOST|..] == rest;
  }

  /** The replacement text begins with a `:`. */
  lemma ApiHostFirst(rest: string)
    ensures (API_HOST + rest)[0] == ':'
  {
  }

  /** Until the first `:` it writes, the replacement copies its input byte for byte. */
  lemma {:induction false} ReplaceHostCopiesUntilColon(s: string, k: nat)
    requires k <= |ReplaceHost(s)| && HasNoColon(ReplaceHost(s)[..k])
    ensures k <= |s| && ReplaceHost(s)[..k] == s[..k]
  {
    var r := ReplaceHost(s);
    var n := |GITHUB_HOST|;
    if k > 0 {
      assert r[..k][0] == r[0];
    }
    if k == 0 || |s| < n {
    } else if s[..n] == GITHUB_HOST {
      ApiHostFirst(ReplaceHost(s[n..]));
    } else {
      var rest := ReplaceHost(s[1..]);
      assert r == [s[0]] + rest;
      assert r[..k][1..] == rest[..k - 1];
      ReplaceHostCopiesUntilColon(s[1..], k - 1);
      assert r[..k] == [s[0]] + rest[..k - 1];
      assert s[..k] == [s[0]] + s[1..][..k - 1];
    }
  }

  /** Whether `s` holds no occurrence of `://github.com/`. */
  predicate HostFree(s: string) {
    forall i :: 0 <= i <= |s| - |GITHUB_HOST| ==> !HostAt(s, i)
  }

  /** No occurrence starts at `i` when one of the bytes it would cover differs. */
  lemma NotHostAtByte(s: string, i: nat, j: nat)
    requires i + |GITHUB_HOST| <= |s| && j < |GITHUB_HOST| && s[i + j] != GITHUB_HOST[j]
    ensures !HostAt(s, i)
  {
    assert s[i..i + |GITHUB_HOST|][j] == s[i + j];
  }

  /** The replacement text holds no occurrence, nor does it start one with what follows. */
  lemma HostFreeAfterApiHost(rest: string)
    requires HostFree(rest)
    ensures HostFree(API_HOST + rest)
  {
    var r := API_HOST + rest;
    var n := |GITHUB_HOST|;
    forall i | 0 <= i <= |r| - n ensures !HostAt(r, i) {
      if i == 0 {
        assert r[3] == API_HOST[3];
        NotHostAtByte(r, 0, 3);
      } else if i < |API_HOST| {
        assert r[i] == API_HOST[i];
        NotHostAtByte(r, i, 0);
      } else {
        assert r[i..i + n] == rest[i - |API_HOST|..i - |API_HOST| + n];
        assert !HostAt(rest, i - |API_HOST|);
      }
    }
  }

  /**
   * A byte copied because no occurrence starts at it does not start one in
   * the output either: up to the first `:` the output is the input.
   */
  lemma HostFreeAfterCopy(s: string)
    requires |s| >= |GITHUB_HOST| && s[..|GITHUB_HOST|] != GITHUB_HOST
    requires HostFree(ReplaceHost(s[1..]))
    ensures HostFree([s[0]] + ReplaceHost(s[1..]))
  {
    var rest := ReplaceHost(s[1..]);
    var r := [s[0]] + rest;
    var n := |GITHUB_HOST|;
    forall i | 0 <= i <= |r| - n ensures !HostAt(r, i) {
      if i > 0 {
        assert r[i..i + n] == rest[i - 1..i - 1 + n];
        assert !HostAt(rest, i - 1);
      } else if HasNoColon(rest[..n - 1]) {
        // the copied bytes after `s[0]` are `s`'s own, and `s` did not start with the host
        ReplaceHostCopiesUntilColon(s[1..], n - 1);
        assert r[..n] == [s[0]] + rest[..n - 1];
        assert r[..n] == s[..n];
      } else {
        // a `:` after the first byte, where the host has none
        var j :| 0 <= j < n - 1 && rest[..n - 1][j] == ':';
        assert r[..n][j + 1] == ':' != GITHUB_HOST[j + 1];
      }
    }
  }

  /** After the replacement no `://github.com/` is left. */
  lemma {:induction false} ReplaceHostLeavesNoHost(s: string)
    ensures HostFree(ReplaceHost(s))
  {
    var n := |GITHUB_HOST|;
    if |s| >= n && s[..n] == GITHUB_HOST {
      ReplaceHostLeavesNoHost(s[n..]);
      HostFreeAfterApiHost(ReplaceHost(s[n..]));
    } else if |s| >= n {
      ReplaceHostLeavesNoHost(s[1..]);
      HostFreeAfterCopy(s);
    }
  }

  /** `apiURL`: the host rewritten everywhere, then `/commits` appended. */
  function ApiURL(url: string): (api: string)
    ensures EndsWith(api, COMMITS_SUFFIX)
    ensures HostFree(api[..|api| - |COMMITS_SUFFIX|])
  {
    ReplaceHostLeavesNoHost(url);
    var api := ReplaceHost(url) + COMMITS_SUFFIX;
    assert api[..|api| - |COMMITS_SUFFIX|] == ReplaceHost(url);
    api
  }

  lemma ColonFreeJoin(a: string, b: string)
    requires HasNoColon(a) && HasNoColon(b)
    ensures HasNoColon(a + b)
  {
    assert forall i :: |a| <= i < |a + b| ==> (a + b)[i] == b[i - |a|];
  }

  /** Segment bytes never include `:`, so an `owner/repo` path has none. */
  lemma PathHasNoColon(owner: string, repo: string)
    requires IsSegment(owner) && IsSegment(repo)
    ensures HasNoColon(owner + "/" + repo)
  {
    ColonFreeJoin(owner, "/");
    ColonFreeJoin(owner + "/", repo);
  }

  /** A repository URL, cut where the host begins. */
  lemma RepoUrlAroundHost(prefix: string, secure: bool, owner: string, repo: string)
    ensures RepoUrl(prefix, secure, owner, repo, "") ==
            (prefix + Scheme(secure)) + (GITHUB_HOST + (owner + "/" + repo))
  {
    RegroupJoin(prefix, Scheme(secure), GITHUB_HOST, owner, repo);
  }

  lemma RegroupJoin(prefix: string, scheme: string, host: string, owner: string, repo: string)
    ensures prefix + (scheme + host) + owner + "/" + repo + "" == (prefix + scheme) + (host + (owner + "/" + repo))
  {
  }

  /**
   * A repository URL becomes its commits endpoint: the scheme and whatever
   * came before it (when that holds no `:`) are kept, the host becomes
   * `api.github.com/repos/`, and `/commits` follows the repository.
   */
  lemma ApiURLOfRepoUrl(prefix: string, secure: bool, owner: string, repo: string)
    requires HasNoColon(prefix) && IsSegment(owner) && IsSegment(repo)
    ensures ApiURL(RepoUrl(prefix, secure, owner, repo, "")) ==
            prefix + Scheme(secure) + API_HOST + owner + "/" + repo + COMMITS_SUFFIX
  {
    var lead := prefix + Scheme(secure);
    var path := owner + "/" + repo;
    PathHasNoColon(owner, repo);
    ColonFreeJoin(prefix, Scheme(secure));
    RepoUrlAroundHost(prefix, secure, owner, repo);
    ReplaceHostSkipsColonFree(lead, GITHUB_HOST + path);
    ReplaceHostAtFront(path);
    ReplaceHostKeepsColonFree(path);
    RegroupEndpoint(prefix, Scheme(secure), API_HOST, owner, repo, COMMITS_SUFFIX);
  }

  lemma RegroupEndpoint(prefix: string, scheme: string, host: string, owner: string, repo: string, suffix: string)
    ensures (prefix + scheme) + (host + (owner + "/" + repo)) + suffix ==
            prefix + scheme + host + owner + "/" + repo + suffix
  {
  }

  /** An empty repository URL still yields a non-empty endpoint: `/commits` alone. */
  lemma ApiURLOfEmpty()
    ensures ApiURL("") == "/commits"
  {
  }
}
