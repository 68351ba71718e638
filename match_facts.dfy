/** How the whole of `urlPattern` reduces to its host fragment: first what the
    protocol and user-information groups consume, then what may follow the host
    (nothing, a port, a path, or a port and a path). */
module MatchFacts {
  import opened Text
  import opened UrlRegex
  import opened PatternFacts

  // ---------------------------------------------------------------------------
  // Protocol and user information

  lemma ProtocolTail(p: string)
    requires Protocol(p)
    ensures p != [] ==> |p| >= 4 && p[|p| - 3] == ':' && p[|p| - 2] == '/'
    ensures p != [] ==> forall x :: 0 <= x < |p| - 3 ==> IsWordChar(p[x])
  {
    if p != [] {
      assert p[|p| - 3] == p[|p| - 3..][0] && p[|p| - 2] == p[|p| - 3..][1];
    }
  }

  /** No protocol can be matched when every ':' of the input comes at or after
      position `k`, and position `k`, if any, holds a character that is neither
      a word character nor the start of "://". */
  lemma NoProtocol(s: string, i: nat, k: nat)
    requires i <= |s| && Protocol(s[..i]) && k <= |s|
    requires forall x :: 0 <= x < k ==> s[x] != ':'
    requires k < |s| ==> !IsWordChar(s[k]) && (s[k] == ':' ==> k + 1 == |s| || s[k + 1] != '/')
    ensures i == 0
  {
    ProtocolTail(s[..i]);
    assert forall x :: 0 <= x < i ==> s[..i][x] == s[x];
  }

  /** No user information can be matched in an input without '@'. */
  lemma NoUserInfo(s: string, j: nat)
    requires j <= |s| && UserInfo(s[..j])
    requires forall x :: 0 <= x < |s| ==> s[x] != '@'
    ensures j == 0
  {
  }

  /** When no protocol and no user information can be matched (`m` as in
      `NoProtocol`), the pattern matches exactly when the input is a host and
      what may follow it. */
  lemma WithoutPrefixes(s: string, m: nat)
    requires m <= |s|
    requires forall x :: 0 <= x < m ==> s[x] != ':'
    requires m < |s| ==> !IsWordChar(s[m]) && (s[m] == ':' ==> m + 1 == |s| || s[m + 1] != '/')
    requires forall x :: 0 <= x < |s| ==> s[x] != '@'
    ensures UrlPattern(s) <==> AfterUserInfo(s)
  {
    if UrlPattern(s) {
      var i :| 0 <= i <= |s| && Protocol(s[..i]) && AfterProtocol(s[i..]);
      NoProtocol(s, i, m);
      assert s[i..] == s;
      var j :| 0 <= j <= |s| && UserInfo(s[..j]) && AfterUserInfo(s[j..]);
      NoUserInfo(s, j);
      assert s[j..] == s;
    }
    if AfterUserInfo(s) {
      assert s[..0] == [] && s[0..] == s;
      assert AfterProtocol(s);
    }
  }

  /** In `w + "://" + t`, a protocol that is matched at all is `w + "://"`. */
  lemma ProtocolLength(w: string, t: string, i: nat)
    requires |w| >= 1 && forall x :: 0 <= x < |w| ==> IsWordChar(w[x])
    requires 0 < i <= |w| + 3 + |t| && Protocol((w + "://" + t)[..i])
    ensures i == |w| + 3
  {
    var s := w + "://" + t;
    ProtocolTail(s[..i]);
    assert forall x :: 0 <= x < i ==> s[..i][x] == s[x];
    assert forall x :: 0 <= x < |w| ==> s[x] == w[x];
    assert s[|w|] == ':';
  }

  /** The characters of `w + "://" + t`. */
  lemma ProtocolText(w: string, t: string)
    requires forall x :: 0 <= x < |w| ==> IsWordChar(w[x])
    requires forall x :: 0 <= x < |t| ==> t[x] != '@'
    ensures var s := w + "://" + t;
      s[..|w| + 3] == w + "://" && s[|w| + 3..] == t && s[|w|] == ':' && s[|w| + 1] == '/' &&
      (forall x :: 0 <= x < |s| ==> s[x] != '@') &&
      (forall x :: 0 <= x < |w| ==> s[x] != ':' && s[x] != '/' && s[x] != '@')
  {
    var s := w + "://" + t;
    assert forall x :: 0 <= x < |w| ==> s[x] == w[x];
    assert forall x :: 0 <= x < |t| ==> s[|w| + 3 + x] == t[x];
  }

  /** Without a protocol, a word and "://" cannot start a match: the host would
      end at the ':'. */
  lemma NoEmptyProtocol(w: string, t: string)
    requires forall x :: 0 <= x < |w| ==> IsWordChar(w[x])
    requires forall x :: 0 <= x < |t| ==> t[x] != '@'
    ensures !AfterProtocol(w + "://" + t)
  {
    var s := w + "://" + t;
    ProtocolText(w, t);
    if AfterProtocol(s) {
      var j :| 0 <= j <= |s| && UserInfo(s[..j]) && AfterUserInfo(s[j..]);
      NoUserInfo(s, j);
      assert s[j..] == s;
      HostEndsAtSeparator(s, |w|);
      NoColonSlash(s[|w|..]);
    }
  }

  lemma ProtocolSplit(w: string, t: string, i: nat)
    requires |w| >= 1 && forall x :: 0 <= x < |w| ==> IsWordChar(w[x])
    requires forall x :: 0 <= x < |t| ==> t[x] != '@'
    requires i <= |w| + 3 + |t| && Protocol((w + "://" + t)[..i]) && AfterProtocol((w + "://" + t)[i..])
    ensures i == |w| + 3
  {
    if i > 0 {
      ProtocolLength(w, t, i);
    } else {
      assert (w + "://" + t)[i..] == w + "://" + t;
      NoEmptyProtocol(w, t);
    }
  }

  /** A word and "://" in front of a text without '@' match exactly when the
      text is a host and what may follow it. */
  lemma WithProtocol(w: string, t: string)
    requires |w| >= 1 && forall x :: 0 <= x < |w| ==> IsWordChar(w[x])
    requires forall x :: 0 <= x < |t| ==> t[x] != '@'
    ensures UrlPattern(w + "://" + t) <==> AfterUserInfo(t)
  {
    if UrlPattern(w + "://" + t) { ProtocolInputOnly(w, t); }
    if AfterUserInfo(t) { ProtocolInputMatches(w, t); }
  }

  lemma ProtocolInputOnly(w: string, t: string)
    requires |w| >= 1 && forall x :: 0 <= x < |w| ==> IsWordChar(w[x])
    requires forall x :: 0 <= x < |t| ==> t[x] != '@'
    requires UrlPattern(w + "://" + t)
    ensures AfterUserInfo(t)
  {
    var s := w + "://" + t;
    ProtocolText(w, t);
    var i :| 0 <= i <= |s| && Protocol(s[..i]) && AfterProtocol(s[i..]);
    ProtocolSplit(w, t, i);
    var j :| 0 <= j <= |t| && UserInfo(t[..j]) && AfterUserInfo(t[j..]);
    NoUserInfo(t, j);
    assert t[j..] == t;
  }

  lemma ProtocolInputMatches(w: string, t: string)
    requires |w| >= 1 && forall x :: 0 <= x < |w| ==> IsWordChar(w[x])
    requires forall x :: 0 <= x < |t| ==> t[x] != '@'
    requires AfterUserInfo(t)
    ensures UrlPattern(w + "://" + t)
  {
    var p := w + "://";
    assert p[|p| - 3..] == "://";
    assert forall x :: 0 <= x < |p| - 3 ==> p[x] == w[x];
    assert Protocol(p);
    assert t[..0] == [] && t[0..] == t;
    assert AfterProtocol(t);
    ProtocolText(w, t);
  }

  /** The characters of `u + "@" + t`, and the first ':' or '@' of it, at `m`. */
  lemma UserInfoText(u: string, t: string) returns (m: nat)
    requires NonBlank(u) && forall x :: 0 <= x < |u| ==> u[x] != '@' && u[x] != '/'
    requires forall x :: 0 <= x < |t| ==> t[x] != '@'
    ensures var s := u + "@" + t;
      s[..|u| + 1] == u + "@" && s[|u| + 1..] == t && s[|u|] == '@' &&
      (forall x :: 0 <= x < |s| && s[x] == '@' ==> x == |u|) &&
      m <= |u| && (forall x :: 0 <= x < m ==> s[x] != ':' && s[x] != '/' && s[x] != '@') &&
      (s[m] == ':' || s[m] == '@') && !IsWordChar(s[m]) && (s[m] == ':' ==> s[m + 1] != '/') &&
      s[m..][|u| - m] == '@' && (forall y :: 0 <= y < |u| - m ==> s[m..][y] != '/')
  {
    var s := u + "@" + t;
    assert forall x :: 0 <= x < |u| ==> s[x] == u[x];
    assert forall x :: 0 <= x < |t| ==> s[|u| + 1 + x] == t[x];
    m := if ':' in u then IndexOf(u, ':') else |u|;
    assert forall x :: 0 <= x < m ==> u[x] != ':';
  }

  /** Without user information, a text with an '@' and no '/' before it cannot
      match: the host would have to end before the '@'. */
  lemma NoEmptyUserInfo(u: string, t: string)
    requires NonBlank(u) && forall x :: 0 <= x < |u| ==> u[x] != '@' && u[x] != '/'
    requires forall x :: 0 <= x < |t| ==> t[x] != '@'
    ensures !AfterUserInfo(u + "@" + t)
  {
    var s := u + "@" + t;
    var m := UserInfoText(u, t);
    if AfterUserInfo(s) {
      HostEndsAtSeparator(s, m);
      AtBlocksAfterHost(s[m..], |u| - m);
    }
  }

  /** User information without '/' and '@', and '@', in front of a text without
      '@' match exactly when the text is a host and what may follow it. */
  lemma WithUserInfo(u: string, t: string)
    requires u != [] && NonBlank(u)
    requires forall x :: 0 <= x < |u| ==> u[x] != '@' && u[x] != '/'
    requires forall x :: 0 <= x < |t| ==> t[x] != '@'
    ensures UrlPattern(u + "@" + t) <==> AfterUserInfo(t)
  {
    if UrlPattern(u + "@" + t) { UserInfoInputOnly(u, t); }
    if AfterUserInfo(t) { UserInfoInputMatches(u, t); }
  }

  lemma UserInfoInputOnly(u: string, t: string)
    requires NonBlank(u) && forall x :: 0 <= x < |u| ==> u[x] != '@' && u[x] != '/'
    requires forall x :: 0 <= x < |t| ==> t[x] != '@'
    requires UrlPattern(u + "@" + t)
    ensures AfterUserInfo(t)
  {
    var s := u + "@" + t;
    var m := UserInfoText(u, t);
    var i :| 0 <= i <= |s| && Protocol(s[..i]) && AfterProtocol(s[i..]);
    NoProtocol(s, i, m);
    assert s[i..] == s;
    UserInfoFromAt(u, t);
  }

  lemma UserInfoFromAt(u: string, t: string)
    requires NonBlank(u) && forall x :: 0 <= x < |u| ==> u[x] != '@' && u[x] != '/'
    requires forall x :: 0 <= x < |t| ==> t[x] != '@'
    requires AfterProtocol(u + "@" + t)
    ensures AfterUserInfo(t)
  {
    var s := u + "@" + t;
    var j :| 0 <= j <= |s| && UserInfo(s[..j]) && AfterUserInfo(s[j..]);
    UserInfoEnd(u, t, j);
    if j == 0 {
      assert s[j..] == s;
      NoEmptyUserInfo(u, t);
    }
  }

  /** The user information of `u + "@" + t` is empty or ends at its only '@'. */
  lemma UserInfoEnd(u: string, t: string, j: nat)
    requires NonBlank(u) && forall x :: 0 <= x < |u| ==> u[x] != '@' && u[x] != '/'
    requires forall x :: 0 <= x < |t| ==> t[x] != '@'
    requires j <= |u| + 1 + |t| && UserInfo((u + "@" + t)[..j])
    ensures j == 0 || (j == |u| + 1 && (u + "@" + t)[j..] == t)
  {
    var s := u + "@" + t;
    var m := UserInfoText(u, t);
    if j > 0 {
      assert s[..j][j - 1] == s[j - 1];
    }
  }

  lemma UserInfoInputMatches(u: string, t: string)
    requires u != [] && NonBlank(u) && forall x :: 0 <= x < |u| ==> u[x] != '@' && u[x] != '/'
    requires forall x :: 0 <= x < |t| ==> t[x] != '@'
    requires AfterUserInfo(t)
    ensures UrlPattern(u + "@" + t)
  {
    var s := u + "@" + t;
    var m := UserInfoText(u, t);
    var v := u + "@";
    assert v[..|u|] == u && v[|u|..|v| - 1] == [];
    assert UserInfo(v);
    assert AfterProtocol(s);
    assert s[..0] == [] && s[0..] == s;
  }

  // ---------------------------------------------------------------------------
  // Where the host ends

  /** The host part matched at the start of `s` ends at or before the first separator. */
  lemma HostEnd(s: string, k: nat, r: string, m: nat)
    requires k <= |s| && HostPart(s[..k], r)
    requires m < |s| && (s[m] == ':' || s[m] == '/' || s[m] == '@')
    ensures k <= m
  {
    HostPartShape(s[..k], r);
    assert forall x :: 0 <= x < k ==> s[..k][x] == s[x];
  }

  /** Indexing into the two slices of `x` at `l`. */
  lemma Slices(x: string, l: nat, i: nat)
    ensures i < l <= |x| ==> x[..l][i] == x[i]
    ensures l + i < |x| ==> x[l..][i] == x[l + i]
    ensures 1 <= i < l <= |x| ==> x[..l][1..][i - 1] == x[i]
  {
  }

  /** What follows a host at `k`, when anything does, starts with ':' or '/'. */
  lemma AfterHostAt(t: string, k: nat)
    requires k < |t| && AfterHost(t[k..])
    ensures t[k] == ':' || t[k] == '/'
  {
    var x := t[k..];
    var l :| 0 <= l <= |x| && Port(x[..l]) && Path(x[l..]);
    Slices(x, l, 0);
  }

  /** After the user information, the host ends exactly at the first separator,
      which is not an '@'. */
  lemma HostEndsAtSeparator(t: string, m: nat)
    requires AfterUserInfo(t) && m < |t| && (t[m] == ':' || t[m] == '/' || t[m] == '@')
    requires forall x :: 0 <= x < m ==> t[x] != ':' && t[x] != '/' && t[x] != '@'
    ensures HostPart(t[..m], t) && AfterHost(t[m..]) && t[m] != '@'
  {
    var k :| 0 <= k <= |t| && HostPart(t[..k], t) && AfterHost(t[k..]);
    HostEnd(t, k, t, m);
    AfterHostAt(t, k);
    assert k == m;
  }

  /** "://" cannot follow a host. */
  lemma NoColonSlash(x: string)
    ensures |x| >= 2 && x[0] == ':' && x[1] == '/' ==> !AfterHost(x)
  {
    if AfterHost(x) {
      var l :| 0 <= l <= |x| && Port(x[..l]) && Path(x[l..]);
      Slices(x, l, 0);
      Slices(x, l, 1);
    }
  }

  /** An '@' with no '/' before it cannot follow a host. */
  lemma AtBlocksAfterHost(x: string, a: nat)
    ensures a < |x| && x[a] == '@' && (forall y :: 0 <= y < a ==> x[y] != '/') ==> !AfterHost(x)
  {
    if AfterHost(x) {
      var l :| 0 <= l <= |x| && Port(x[..l]) && Path(x[l..]);
      Slices(x, l, 0);
      Slices(x, l, a);
    }
  }

  // ---------------------------------------------------------------------------
  // What follows the host

  /** Without a '/', what follows the host is a port or nothing. */
  lemma NoPath(t: string)
    requires AfterHost(t)
    requires forall x :: 0 <= x < |t| ==> t[x] != '/'
    ensures Port(t)
  {
    var l :| 0 <= l <= |t| && Port(t[..l]) && Path(t[l..]);
    assert l == |t|;
    assert t[..l] == t;
  }

  /** Two to five digits after a ':' are a port and no path. */
  lemma PortOnly(d: string)
    requires AllDigits(d) && 2 <= |d| <= 5
    ensures AfterHost([':'] + d)
  {
    var t := [':'] + d;
    assert t[..|t|] == t && t[|t|..] == [] && t[1..] == d;
  }

  /** A '/' and text may follow a host exactly when the text has no white space. */
  lemma PathOnlyIff(p: string)
    ensures AfterHost(['/'] + p) <==> NonBlank(p)
  {
    var t := ['/'] + p;
    assert t[..0] == [] && t[0..] == t && t[1..] == p;
    if AfterHost(t) {
      var l :| 0 <= l <= |t| && Port(t[..l]) && Path(t[l..]);
      if l > 0 { assert t[..l][0] == t[0]; }
    }
  }

  /** A ':', digits, a '/' and text may follow a host exactly when there are two
      to five digits and the text has no white space. */
  lemma PortPathIff(d: string, p: string)
    requires AllDigits(d)
    ensures AfterHost([':'] + d + ['/'] + p) <==> 2 <= |d| <= 5 && NonBlank(p)
  {
    var t := [':'] + d + ['/'] + p;
    var n := |d| + 1;
    PortPathText(d, p);
    if AfterHost(t) {
      var l :| 0 <= l <= |t| && Port(t[..l]) && Path(t[l..]);
      Slices(t, l, 0);
      Slices(t, l, n);
      assert l == n;
    }
  }

  /** The slices of `[':'] + d + ['/'] + p` at the '/'. */
  lemma PortPathText(d: string, p: string)
    requires AllDigits(d)
    ensures var t := [':'] + d + ['/'] + p; var n := |d| + 1;
      t[n] == '/' && (forall x :: 1 <= x < n ==> IsAsciiDigit(t[x])) &&
      t[..n] == [':'] + d && t[n..] == ['/'] + p && t[n..][1..] == p && t[..n][1..] == d
  {
    var t := [':'] + d + ['/'] + p;
    var n := |d| + 1;
    assert forall x :: 1 <= x < n ==> t[x] == d[x - 1];
    assert t[..n] == [':'] + d && t[n..] == ['/'] + p;
  }

  // ---------------------------------------------------------------------------
  // After the user information: a host and what follows it

  /** A text without ':', '/' and '@' is a host and what may follow it exactly
      when all of it is a host. */
  lemma HostAloneIff(h: string)
    requires NoSeparators(h)
    ensures AfterUserInfo(h) <==> HostPart(h, h)
  {
    if AfterUserInfo(h) {
      var k :| 0 <= k <= |h| && HostPart(h[..k], h) && AfterHost(h[k..]);
      if k < |h| {
        AfterHostAt(h, k);
      }
      assert h[..k] == h;
    }
    if HostPart(h, h) {
      assert h[..|h|] == h;
      var e := h[|h|..];
      assert e[..0] == [] && e[0..] == [];
      assert AfterHost(e);
    }
  }

  /** A host, ':' and digits: the host must match, its look-aheads seeing the
      whole text, and there must be two to five digits. */
  lemma HostPortIff(h: string, d: string)
    requires NoSeparators(h) && AllDigits(d)
    ensures AfterUserInfo(h + [':'] + d) <==> HostPart(h, h + [':'] + d) && 2 <= |d| <= 5
  {
    var s := h + [':'] + d;
    PortInputChars(h, d);
    if AfterUserInfo(s) {
      HostEndsAtSeparator(s, |h|);
      NoPath(s[|h|..]);
    }
    if HostPart(h, s) && 2 <= |d| <= 5 {
      PortOnly(d);
      assert AfterUserInfo(s);
    }
  }

  /** A host, '/' and text: the host must match and the text have no white space. */
  lemma HostPathIff(h: string, p: string)
    requires NoSeparators(h)
    ensures AfterUserInfo(h + ['/'] + p) <==> HostPart(h, h + ['/'] + p) && NonBlank(p)
  {
    var s := h + ['/'] + p;
    assert forall x :: 0 <= x < |h| ==> s[x] == h[x];
    assert s[..|h|] == h && s[|h|..] == ['/'] + p;
    PathOnlyIff(p);
    if AfterUserInfo(s) {
      HostEndsAtSeparator(s, |h|);
    }
    if HostPart(h, s) && NonBlank(p) {
      assert AfterUserInfo(s);
    }
  }

  /** A host, ':', digits, '/' and text: the host must match, there must be two
      to five digits and the text must have no white space. */
  lemma HostPortPathIff(h: string, d: string, p: string)
    requires NoSeparators(h) && AllDigits(d)
    ensures AfterUserInfo(h + [':'] + d + ['/'] + p) <==>
      HostPart(h, h + [':'] + d + ['/'] + p) && 2 <= |d| <= 5 && NonBlank(p)
  {
    var s := h + [':'] + d + ['/'] + p;
    assert forall x :: 0 <= x < |h| ==> s[x] == h[x];
    assert s[..|h|] == h && s[|h|..] == [':'] + d + ['/'] + p;
    PortPathIff(d, p);
    if AfterUserInfo(s) {
      HostEndsAtSeparator(s, |h|);
    }
    if HostPart(h, s) && 2 <= |d| <= 5 && NonBlank(p) {
      assert AfterUserInfo(s);
    }
  }

  // ---------------------------------------------------------------------------
  // The whole pattern, when the input has no protocol and no user information

  /** An input without ':', '/' and '@' matches exactly when all of it is a host. */
  lemma BareHostIff(s: string)
    requires NoSeparators(s)
    ensures UrlPattern(s) <==> HostPart(s, s)
  {
    WithoutPrefixes(s, |s|);
    HostAloneIff(s);
  }

  /** The characters of `h + [':'] + d`. */
  lemma PortInputChars(h: string, d: string)
    requires NoSeparators(h) && AllDigits(d)
    ensures var s := h + [':'] + d;
      s[|h|] == ':' && (|h| + 1 == |s| || s[|h| + 1] != '/') && !IsWordChar(s[|h|]) &&
      (forall x :: 0 <= x < |s| ==> s[x] != '/') &&
      (forall x :: 0 <= x < |s| ==> s[x] != '@') &&
      (forall x :: 0 <= x < |h| ==> s[x] != ':') &&
      s[..|h|] == h && s[|h|..] == [':'] + d
  {
    var s := h + [':'] + d;
    forall x | 0 <= x < |s| ensures s[x] != '/' && s[x] != '@' {
      if x < |h| { assert s[x] == h[x]; } else if x > |h| { assert s[x] == d[x - |h| - 1]; }
    }
    assert forall x :: 0 <= x < |h| ==> s[x] == h[x];
    if |d| > 0 { assert s[|h| + 1] == d[0]; }
  }

  /** A host followed by ':' and digits matches exactly when the host matches
      (its look-aheads seeing the whole input) and there are two to five digits. */
  lemma HostWithPortIff(h: string, d: string)
    requires NoSeparators(h) && AllDigits(d)
    ensures UrlPattern(h + [':'] + d) <==> HostPart(h, h + [':'] + d) && 2 <= |d| <= 5
  {
    PortInputChars(h, d);
    WithoutPrefixes(h + [':'] + d, |h|);
    HostPortIff(h, d);
  }

  /** The characters of `h + ['/'] + p`. */
  lemma PathInputChars(h: string, p: string)
    requires NoSeparators(h) && forall x :: 0 <= x < |p| ==> p[x] != '@'
    ensures var s := h + ['/'] + p;
      s[|h|] == '/' &&
      (forall x :: 0 <= x < |s| ==> s[x] != '@') &&
      (forall x :: 0 <= x < |h| ==> s[x] != ':' && s[x] != '/')
  {
    var s := h + ['/'] + p;
    forall x | 0 <= x < |s| ensures s[x] != '@' {
      if x < |h| { assert s[x] == h[x]; } else if x > |h| { assert s[x] == p[x - |h| - 1]; }
    }
    assert forall x :: 0 <= x < |h| ==> s[x] == h[x];
  }

  /** A host followed by '/' and text without '@' matches exactly when the host
      matches (its look-aheads seeing the whole input) and the text has no
      white space. */
  lemma HostWithPathIff(h: string, p: string)
    requires NoSeparators(h) && forall x :: 0 <= x < |p| ==> p[x] != '@'
    ensures UrlPattern(h + ['/'] + p) <==> HostPart(h, h + ['/'] + p) && NonBlank(p)
  {
    PathInputChars(h, p);
    WithoutPrefixes(h + ['/'] + p, |h|);
    HostPathIff(h, p);
  }

  /** The characters of `h + [':'] + d + ['/'] + p`. */
  lemma PortPathInputChars(h: string, d: string, p: string)
    requires NoSeparators(h) && AllDigits(d) && |d| >= 1 && forall x :: 0 <= x < |p| ==> p[x] != '@'
    ensures var s := h + [':'] + d + ['/'] + p;
      s[|h|] == ':' && s[|h| + 1] != '/' &&
      (forall x :: 0 <= x < |s| ==> s[x] != '@') &&
      (forall x :: 0 <= x < |h| ==> s[x] != ':')
  {
    var s := h + [':'] + d + ['/'] + p;
    forall x | 0 <= x < |s| ensures s[x] != '@' {
      if x < |h| { assert s[x] == h[x]; }
      else if |h| < x <= |h| + |d| { assert s[x] == d[x - |h| - 1]; }
      else if x > |h| + |d| + 1 { assert s[x] == p[x - |h| - |d| - 2]; }
    }
    assert forall x :: 0 <= x < |h| ==> s[x] == h[x];
    assert s[|h| + 1] == d[0];
  }

  /** A host followed by ':', digits, '/' and text without '@' matches exactly
      when the host matches, there are two to five digits and the text has no
      white space. */
  lemma HostWithPortPathIff(h: string, d: string, p: string)
    requires NoSeparators(h) && AllDigits(d) && |d| >= 1 && forall x :: 0 <= x < |p| ==> p[x] != '@'
    ensures UrlPattern(h + [':'] + d + ['/'] + p) <==>
      HostPart(h, h + [':'] + d + ['/'] + p) && 2 <= |d| <= 5 && NonBlank(p)
  {
    PortPathInputChars(h, d, p);
    WithoutPrefixes(h + [':'] + d + ['/'] + p, |h|);
    HostPortPathIff(h, d, p);
  }

  // ---------------------------------------------------------------------------
  // The whole pattern, with a protocol or user information in front of a host

  /** A word, "://" and a text without separators match exactly when the text
      is a host. */
  lemma ProtocolHostIff(w: string, h: string)
    requires |w| >= 1 && forall x :: 0 <= x < |w| ==> IsWordChar(w[x])
    requires NoSeparators(h)
    ensures UrlPattern(w + "://" + h) <==> HostPart(h, h)
  {
    WithProtocol(w, h);
    HostAloneIff(h);
  }

  /** User information, '@' and a text without separators match exactly when
      the text is a host. */
  lemma UserInfoHostIff(u: string, h: string)
    requires u != [] && NonBlank(u) && forall x :: 0 <= x < |u| ==> u[x] != '@' && u[x] != '/'
    requires NoSeparators(h)
    ensures UrlPattern(u + "@" + h) <==> HostPart(h, h)
  {
    WithUserInfo(u, h);
    HostAloneIff(h);
  }
}
