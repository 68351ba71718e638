/** The language of the plugin's `urlPattern` regular expression (adapted from
    dperini's URL pattern), evaluated with `RegexOptions.IgnoreCase`. Each predicate
    below stands for one fragment of the pattern and follows its structure; the
    lemmas give an equivalent description of each fragment in terms of characters,
    `Split` and decimal values. */
module UrlRegex {
  import opened Text

  // ---------------------------------------------------------------------------
  // Character classes

  /** `\w`, restricted to ASCII. */
  predicate IsWordChar(c: char) { IsAsciiLetter(c) || IsAsciiDigit(c) || c == '_' }

  /** `[a-z\u00a1-\uffff0-9]` under IgnoreCase. A character above U+FFFF is two
      UTF-16 surrogates in .NET, both inside `\u00a1-\uffff`, so under `*` and `+`
      it behaves as one character of the class. */
  predicate IsHostChar(c: char) { IsAsciiLetter(c) || IsAsciiDigit(c) || c >= '\U{A1}' }

  /** `[a-z\u00a1-\uffff]` under IgnoreCase: a host character that is not a digit. */
  predicate IsTldChar(c: char) { IsAsciiLetter(c) || c >= '\U{A1}' }

  // ---------------------------------------------------------------------------
  // Protocol and user information

  /** `(?:(?:\w+)://|)` */
  predicate Protocol(p: string) {
    p == [] || (|p| >= 4 && p[|p| - 3..] == "://" && forall i :: 0 <= i < |p| - 3 ==> IsWordChar(p[i]))
  }

  /** `(?::\S*)?` */
  predicate OptPassword(w: string) {
    w == [] || (w[0] == ':' && NonBlank(w[1..]))
  }

  /** `(?:\S+(?::\S*)?@)?` */
  predicate UserInfo(u: string) {
    u == [] ||
    (|u| >= 2 && u[|u| - 1] == '@' &&
     exists m :: 1 <= m <= |u| - 1 && NonBlank(u[..m]) && OptPassword(u[m..|u| - 1]))
  }

  // ---------------------------------------------------------------------------
  // The three negative look-aheads that exclude private and local networks

  /** `(?:\.\d{1,3}){n}` matches at the start of `r` (a look-ahead: the rest of
      `r` is not examined). */
  predicate DotGroupsAhead(r: string, n: nat)
    decreases n
  {
    n == 0 ||
    (|r| >= 2 && r[0] == '.' &&
     exists e :: 2 <= e <= 4 && e <= |r| && AllDigits(r[1..e]) && DotGroupsAhead(r[e..], n - 1))
  }

  /** `1[6-9]|2\d|3[0-1]` */
  predicate Private172Second(w: string) {
    |w| == 2 &&
    ((w[0] == '1' && '6' <= w[1] <= '9') || (w[0] == '2' && IsAsciiDigit(w[1])) ||
     (w[0] == '3' && '0' <= w[1] <= '1'))
  }

  /** True when one of the look-aheads
        `(?!(?:10|127)(?:\.\d{1,3}){3})`,
        `(?!(?:169\.254|192\.168)(?:\.\d{1,3}){2})`,
        `(?!172\.(?:1[6-9]|2\d|3[0-1])(?:\.\d{1,3}){2})`
      fails on the remaining input `r`. */
  predicate PrivateAhead(r: string) {
    (StartsWith(r, "10") && DotGroupsAhead(r[2..], 3)) ||
    (StartsWith(r, "127") && DotGroupsAhead(r[3..], 3)) ||
    ((StartsWith(r, "169.254") || StartsWith(r, "192.168")) && DotGroupsAhead(r[7..], 2)) ||
    (StartsWith(r, "172.") && |r| >= 6 && Private172Second(r[4..6]) && DotGroupsAhead(r[6..], 2))
  }

  // ---------------------------------------------------------------------------
  // Dotted-quad IPv4 address

  /** `[1-9]\d?|1\d\d|2[01]\d|22[0-3]` */
  predicate FirstOctet(s: string) {
    (|s| == 1 && '1' <= s[0] <= '9') ||
    (|s| == 2 && '1' <= s[0] <= '9' && IsAsciiDigit(s[1])) ||
    (|s| == 3 && s[0] == '1' && IsAsciiDigit(s[1]) && IsAsciiDigit(s[2])) ||
    (|s| == 3 && s[0] == '2' && '0' <= s[1] <= '1' && IsAsciiDigit(s[2])) ||
    (|s| == 3 && s[0] == '2' && s[1] == '2' && '0' <= s[2] <= '3')
  }

  /** `1?\d{1,2}|2[0-4]\d|25[0-5]` */
  predicate MidOctet(s: string) {
    (|s| == 1 && IsAsciiDigit(s[0])) ||
    (|s| == 2 && IsAsciiDigit(s[0]) && IsAsciiDigit(s[1])) ||
    (|s| == 3 && s[0] == '1' && IsAsciiDigit(s[1]) && IsAsciiDigit(s[2])) ||
    (|s| == 3 && s[0] == '2' && '0' <= s[1] <= '4' && IsAsciiDigit(s[2])) ||
    (|s| == 3 && s[0] == '2' && s[1] == '5' && '0' <= s[2] <= '5')
  }

  /** `[1-9]\d?|1\d\d|2[0-4]\d|25[0-4]` */
  predicate LastOctet(s: string) {
    (|s| == 1 && '1' <= s[0] <= '9') ||
    (|s| == 2 && '1' <= s[0] <= '9' && IsAsciiDigit(s[1])) ||
    (|s| == 3 && s[0] == '1' && IsAsciiDigit(s[1]) && IsAsciiDigit(s[2])) ||
    (|s| == 3 && s[0] == '2' && '0' <= s[1] <= '4' && IsAsciiDigit(s[2])) ||
    (|s| == 3 && s[0] == '2' && s[1] == '5' && '0' <= s[2] <= '4')
  }

  /** `(?:\.mid){n}(?:\.last)`: the octets after the first. */
  predicate OctetGroups(t: string, n: nat)
    decreases n
  {
    if n == 0 then |t| >= 2 && t[0] == '.' && LastOctet(t[1..])
    else |t| >= 1 && t[0] == '.' && exists e :: 2 <= e < |t| && MidOctet(t[1..e]) && OctetGroups(t[e..], n - 1)
  }

  /** `first(?:\.mid){2}(?:\.last)` */
  predicate IpAddress(h: string) {
    exists a :: 1 <= a < |h| && FirstOctet(h[..a]) && OctetGroups(h[a..], 2)
  }

  // ---------------------------------------------------------------------------
  // Host and domain names

  /** `(?:[a-z\u00a1-\uffff0-9]-*)*` */
  predicate DashRuns(s: string)
    decreases |s|
  {
    s == [] ||
    (IsHostChar(s[0]) &&
     exists k :: 1 <= k <= |s| && (forall i :: 1 <= i < k ==> s[i] == '-') && DashRuns(s[k..]))
  }

  /** `(?:[a-z\u00a1-\uffff0-9]-*)*[a-z\u00a1-\uffff0-9]+`: one label of a host
      or domain name. */
  predicate Label(s: string) {
    exists k :: 0 <= k < |s| && DashRuns(s[..k]) && forall i :: k <= i < |s| ==> IsHostChar(s[i])
  }

  /** `\.(?:[a-z\u00a1-\uffff]{2,})`: `{2,}` counts UTF-16 code units, so one
      character above U+FFFF is enough. */
  predicate Tld(t: string) {
    |t| >= 2 && t[0] == '.' && Utf16Length(t[1..]) >= 2 && forall i :: 1 <= i < |t| ==> IsTldChar(t[i])
  }

  /** `(?:\.label)*(?:\.tld)` */
  predicate DomainTail(t: string)
    decreases |t|
  {
    Tld(t) ||
    (|t| >= 1 && t[0] == '.' && exists m :: 2 <= m < |t| && Label(t[1..m]) && DomainTail(t[m..]))
  }

  /** `label(?:\.label)*(?:\.tld)` */
  predicate HostName(h: string) {
    exists k :: 1 <= k < |h| && Label(h[..k]) && DomainTail(h[k..])
  }

  /** The group `(?:look-aheads ip|hostname)`, matched as `h` where `r` is the
      input that remains at its start (the look-aheads examine `r`). */
  predicate HostPart(h: string, r: string) {
    (!PrivateAhead(r) && IpAddress(h)) || HostName(h)
  }

  // ---------------------------------------------------------------------------
  // Port, path and the whole pattern

  /** `(?::\d{2,5})?` */
  predicate Port(p: string) {
    p == [] || (3 <= |p| <= 6 && p[0] == ':' && AllDigits(p[1..]))
  }

  /** `(?:/\S*)?` */
  predicate Path(p: string) {
    p == [] || (p[0] == '/' && NonBlank(p[1..]))
  }

  predicate AfterHost(t: string) {
    exists l :: 0 <= l <= |t| && Port(t[..l]) && Path(t[l..])
  }

  predicate AfterUserInfo(t: string) {
    exists k :: 0 <= k <= |t| && HostPart(t[..k], t) && AfterHost(t[k..])
  }

  predicate AfterProtocol(t: string) {
    exists j :: 0 <= j <= |t| && UserInfo(t[..j]) && AfterUserInfo(t[j..])
  }

  /** `^protocol userinfo host port path$` matches all of `s`. */
  predicate UrlPattern(s: string) {
    exists i :: 0 <= i <= |s| && Protocol(s[..i]) && AfterProtocol(s[i..])
  }

  /** `reg.Match(s).Value`: the text matched, or "" when there is no match. As
      `$` also matches before a final line feed, a string that ends in "\n" can
      match without it. */
  function MatchValue(s: string): (v: string)
    ensures v == s <==> s == [] || UrlPattern(s)
  {
    if UrlPattern(s) then s
    else if |s| > 0 && s[|s| - 1] == '\n' && UrlPattern(s[..|s| - 1]) then s[..|s| - 1]
    else ""
  }
}
