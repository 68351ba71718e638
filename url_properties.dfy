/** What `IsUrl` accepts: the empty text, case-insensitively, the localhost
    forms, dotted-quad addresses outside the private ranges, and host names,
    bare or followed by a port or a path. */
module UrlProperties {
  import opened Text
  import opened UrlRegex
  import opened PatternFacts
  import opened AddressFacts
  import opened MatchFacts
  import opened UrlPlugin

  // ---------------------------------------------------------------------------
  // Case and the empty text

  /** The empty search text counts as a URL: the failed match's value is the
      empty text, which equals the input. */
  lemma EmptyIsUrl()
    ensures IsUrl("")
  {
  }

  /** Only the lower-cased text matters. */
  lemma IsUrlOfLower(s: string)
    ensures IsUrl(ToLower(s)) == IsUrl(s)
  {
    ToLowerIdempotent(s);
  }

  /** Lower-casing keeps the characters the pattern treats specially. */
  lemma LowerKeepsNoSeparators(s: string)
    requires NoSeparators(s)
    ensures NoSeparators(ToLower(s))
  {
  }

  lemma LowerKeepsNonBlank(s: string)
    ensures NonBlank(ToLower(s)) <==> NonBlank(s)
  {
    var t := ToLower(s);
    assert forall i :: 0 <= i < |s| ==> (IsRegexWhiteSpace(t[i]) <==> IsRegexWhiteSpace(s[i]));
  }

  // ---------------------------------------------------------------------------
  // Localhost

  /** A text starting with `p` has `p[i]` at position `i`. */
  lemma StartsWithAt(s: string, p: string, i: nat)
    requires i < |p|
    ensures StartsWith(s, p) ==> s[i] == p[i]
  {
    if StartsWith(s, p) {
      assert s[..|p|][i] == s[i];
    }
  }

  /** "localhost", followed by ':' and anything, with or without "http://" or
      "https://" in front, is a URL. */
  lemma LocalhostWithPort(t: string)
    ensures IsUrl("localhost:" + t) && IsUrl("http://localhost:" + t) && IsUrl("https://localhost:" + t)
  {
    ToLowerConcat("localhost:", t);
    ToLowerConcat("http://localhost:", t);
    ToLowerConcat("https://localhost:", t);
    ToLowerUnchanged("localhost:");
    ToLowerUnchanged("http://localhost:");
    ToLowerUnchanged("https://localhost:");
    assert ("localhost:" + ToLower(t))[..10] == "localhost:";
    assert ("http://localhost:" + ToLower(t))[..17] == "http://localhost:";
    assert ("https://localhost:" + ToLower(t))[..18] == "https://localhost:";
  }

  /** "localhost", "http://localhost" and "https://localhost" are URLs in any
      case. */
  lemma BareLocalhost()
    ensures forall s ::
      (ToLower(s) == "localhost" || ToLower(s) == "http://localhost" || ToLower(s) == "https://localhost") ==>
      IsUrl(s)
  {
    ToLowerUnchanged("localhost");
    ToLowerUnchanged("http://localhost");
    ToLowerUnchanged("https://localhost");
    assert IsUrl("localhost") && IsUrl("http://localhost") && IsUrl("https://localhost");
    forall s | ToLower(s) == "localhost" || ToLower(s) == "http://localhost" || ToLower(s) == "https://localhost"
      ensures IsUrl(s)
    {
      IsUrlOfLower(s);
    }
  }

  /** A host part has a '.': a host name before its top-level domain, an
      address between its numbers. */
  lemma HostPartHasDot(h: string, r: string)
    requires HostPart(h, r)
    ensures '.' in h
  {
    HostNameIff(h);
    SinglePiece(h, '.');
    if IpAddress(h) {
      var a :| 1 <= a < |h| && FirstOctet(h[..a]) && OctetGroups(h[a..], 2);
      OctetGroupsShape(h[a..], 2);
      assert h[a] == h[a..][0];
    }
  }

  /** "localhost" is a URL only through its own rule: the pattern does not
      match it, having no '.' in it. */
  lemma LocalhostNotPattern()
    ensures !UrlPattern("localhost")
  {
    var h := "localhost";
    assert NoSeparators(h);
    assert '.' !in h;
    BareHostIff(h);
    if HostPart(h, h) {
      HostPartHasDot(h, h);
    }
  }

  // ---------------------------------------------------------------------------
  // Dotted quads

  lemma {:induction false} DotNumbersChars(ns: seq<nat>)
    ensures DigitsOrDots(DotNumbers(ns))
    ensures ns != [] ==> |DotNumbers(ns)| >= 2 && IsAsciiDigit(DotNumbers(ns)[|DotNumbers(ns)| - 1])
  {
    if ns != [] {
      var w, t := DecimalString(ns[0]), DotNumbers(ns[1..]);
      DotNumbersChars(ns[1..]);
      var s := ['.'] + w + t;
      assert s == DotNumbers(ns);
      DigitsOrDotsJoin(s, |w| + 1);
      assert s[..|w| + 1] == ['.'] + w && s[|w| + 1..] == t;
      assert forall i :: 0 <= i < |w| ==> s[i + 1] == w[i];
      if t != [] {
        assert s[|s| - 1] == t[|t| - 1];
      }
    }
  }

  /** The characters of "a.b.c.d": digits and dots, a digit at each end. */
  lemma QuadChars(a: nat, b: nat, c: nat, d: nat)
    ensures var q := Quad(a, b, c, d);
      |q| >= 1 && DigitsOrDots(q) && IsAsciiDigit(q[0]) && IsAsciiDigit(q[|q| - 1])
  {
    var w, t := DecimalString(a), DotNumbers([b, c, d]);
    DotNumbersChars([b, c, d]);
    var q := w + t;
    assert q[..|w|] == w && q[|w|..] == t;
    DigitsOrDotsJoin(q, |w|);
    assert q[0] == w[0] && q[|q| - 1] == t[|t| - 1];
  }

  /** Digits and dots contain no separator and no upper-case letter. */
  lemma DigitsOrDotsPlain(s: string)
    requires DigitsOrDots(s)
    ensures NoSeparators(s) && ToLower(s) == s
  {
    ToLowerUnchanged(s);
  }

  /** None of the localhost forms starts with a digit. */
  lemma DigitFirstNotLocalhost(r: string)
    requires |r| >= 1 && IsAsciiDigit(r[0])
    ensures !LocalhostForm(r)
  {
    StartsWithAt(r, "localhost:", 0);
    StartsWithAt(r, "http://localhost:", 0);
    StartsWithAt(r, "https://localhost:", 0);
  }

  /** "a.b.c.d" is a URL exactly when it is a public unicast address: the
      first number is 1 to 223, the middle ones at most 255, the last 1 to 254,
      and it is not in 10/8, 127/8, 169.254/16, 192.168/16 or 172.16/12. */
  lemma QuadIsUrl(a: nat, b: nat, c: nat, d: nat)
    ensures IsUrl(Quad(a, b, c, d)) <==>
      1 <= a <= 223 && b <= 255 && c <= 255 && 1 <= d <= 254 &&
      a != 10 && a != 127 && !(a == 169 && b == 254) && !(a == 192 && b == 168) &&
      !(a == 172 && 16 <= b <= 31)
  {
    QuadIsAddress(a, b, c, d);
    QuadAddress(a, b, c, d);
    PrivateAheadQuad(a, b, c, d);
  }

  /** A dotted quad is a URL exactly when it is an address the look-aheads
      allow; it is never a host name, whose last character is a letter. */
  lemma QuadIsAddress(a: nat, b: nat, c: nat, d: nat)
    ensures var q := Quad(a, b, c, d); IsUrl(q) <==> IpAddress(q) && !PrivateAhead(q)
    ensures !HostName(Quad(a, b, c, d))
  {
    var q := Quad(a, b, c, d);
    QuadChars(a, b, c, d);
    DigitsOrDotsPlain(q);
    DigitFirstNotLocalhost(q);
    BareInputIsUrl(q);
    if HostName(q) {
      HostNameShape(q);
    }
  }

  // ---------------------------------------------------------------------------
  // Host names with a port or a path

  /** A text without separators is none of the localhost forms that have a ':'. */
  lemma ColonInPrefix(r: string, p: string, i: nat)
    requires NoSeparators(r) && i < |p| && p[i] == ':'
    ensures !StartsWith(r, p) && r != p
  {
    StartsWithAt(r, p, i);
  }

  lemma BareLocalhostOnly(r: string)
    requires NoSeparators(r)
    ensures LocalhostForm(r) <==> r == "localhost"
  {
    ColonInPrefix(r, "localhost:", 9);
    ColonInPrefix(r, "http://localhost", 4);
    ColonInPrefix(r, "http://localhost:", 4);
    ColonInPrefix(r, "https://localhost", 5);
    ColonInPrefix(r, "https://localhost:", 5);
  }

  /** A text without ':', '/' and '@' is a URL exactly when it is empty, its
      lower-case form is a host (an address outside the private ranges, or a
      host name), or it is "localhost". */
  lemma BareInputIsUrl(s: string)
    requires NoSeparators(s)
    ensures IsUrl(s) <==> s == [] || HostPart(ToLower(s), ToLower(s)) || ToLower(s) == "localhost"
  {
    var r := ToLower(s);
    LowerKeepsNoSeparators(s);
    BareHostIff(r);
    BareLocalhostOnly(r);
  }

  /** Where the first ':' of `r + [':'] + d` falls inside a prefix `p`. */
  lemma FirstColonPrefix(r: string, d: string, p: string, i: nat)
    requires NoSeparators(r) && AllDigits(d)
    requires i < |p| && p[i] == ':' && forall x :: 0 <= x < i ==> p[x] != ':'
    ensures StartsWith(r + [':'] + d, p) || r + [':'] + d == p ==>
      r == p[..i] && (i + 1 == |p| || IsAsciiDigit(p[i + 1]))
  {
    var s := r + [':'] + d;
    if StartsWith(s, p) || s == p {
      assert forall x :: 0 <= x < |p| ==> s[x] == p[x];
      assert forall x :: 0 <= x < |r| ==> s[x] == r[x];
      assert s[|r|] == ':';
      assert |r| == i;
      assert forall x :: i < x < |s| ==> s[x] == d[x - i - 1];
      assert r == p[..i];
    }
  }

  lemma PortLocalhostOnly(r: string, d: string)
    requires NoSeparators(r) && AllDigits(d)
    ensures LocalhostForm(r + [':'] + d) <==> r == "localhost"
  {
    var s := r + [':'] + d;
    assert s[|r|] == ':';
    assert ':' !in "localhost";
    FirstColonPrefix(r, d, "localhost:", 9);
    FirstColonPrefix(r, d, "http://localhost", 4);
    FirstColonPrefix(r, d, "http://localhost:", 4);
    FirstColonPrefix(r, d, "https://localhost", 5);
    FirstColonPrefix(r, d, "https://localhost:", 5);
    assert r == "localhost" ==> s[..10] == "localhost:";
  }

  /** The lower-case form of a text with one ':' followed by digits. */
  lemma LowerWithPort(h: string, d: string)
    requires AllDigits(d)
    ensures ToLower(h + [':'] + d) == ToLower(h) + [':'] + d
  {
    ToLowerConcat(h + [':'], d);
    ToLowerConcat(h, [':']);
    ToLowerUnchanged(d);
    ToLowerUnchanged([':']);
  }

  /** A host followed by ':' and digits is a URL exactly when its lower-case
      form is a host (the address look-aheads seeing the whole input) and there
      are two to five digits, or it is "localhost" with any digits. */
  lemma PortInputIsUrl(h: string, d: string)
    requires NoSeparators(h) && AllDigits(d)
    ensures IsUrl(h + [':'] + d) <==>
      (HostPart(ToLower(h), ToLower(h) + [':'] + d) && 2 <= |d| <= 5) || ToLower(h) == "localhost"
  {
    var r := ToLower(h);
    LowerWithPort(h, d);
    LowerKeepsNoSeparators(h);
    HostWithPortIff(r, d);
    PortLocalhostOnly(r, d);
  }

  /** A prefix whose first separator is a ':' is not matched by `r + ['/'] + q`. */
  lemma SlashBeforeColon(r: string, q: string, p: string, i: nat)
    requires NoSeparators(r) && i < |p| && p[i] == ':' && forall x :: 0 <= x < i ==> p[x] != '/'
    ensures !StartsWith(r + ['/'] + q, p) && r + ['/'] + q != p
  {
    var s := r + ['/'] + q;
    assert s[|r|] == '/';
    assert forall x :: 0 <= x < |r| ==> s[x] == r[x];
    StartsWithAt(s, p, i);
    if |r| < i {
      StartsWithAt(s, p, |r|);
    }
  }

  lemma PathNotLocalhost(r: string, q: string)
    requires NoSeparators(r)
    ensures !LocalhostForm(r + ['/'] + q)
  {
    var s := r + ['/'] + q;
    assert s[|r|] == '/';
    assert '/' !in "localhost";
    SlashBeforeColon(r, q, "localhost:", 9);
    SlashBeforeColon(r, q, "http://localhost", 4);
    SlashBeforeColon(r, q, "http://localhost:", 4);
    SlashBeforeColon(r, q, "https://localhost", 5);
    SlashBeforeColon(r, q, "https://localhost:", 5);
  }

  lemma LowerWithPath(h: string, p: string)
    ensures ToLower(h + ['/'] + p) == ToLower(h) + ['/'] + ToLower(p)
  {
    ToLowerConcat(h + ['/'], p);
    ToLowerConcat(h, ['/']);
    ToLowerUnchanged(['/']);
  }

  /** A host followed by '/' and a text without '@' is a URL exactly when its
      lower-case form is a host (the address look-aheads seeing the whole
      input) and the text has no white space; "localhost/..." is not a URL. */
  lemma PathInputIsUrl(h: string, p: string)
    requires NoSeparators(h) && forall x :: 0 <= x < |p| ==> p[x] != '@'
    ensures IsUrl(h + ['/'] + p) <==>
      HostPart(ToLower(h), ToLower(h) + ['/'] + ToLower(p)) && NonBlank(p)
  {
    var r, q := ToLower(h), ToLower(p);
    LowerWithPath(h, p);
    LowerKeepsNoSeparators(h);
    LowerKeepsNonBlank(p);
    assert forall x :: 0 <= x < |q| ==> q[x] != '@';
    HostWithPathIff(r, q);
    PathNotLocalhost(r, q);
  }

  // ---------------------------------------------------------------------------
  // Host names

  /** A label, a '.' and a top-level domain make a host name. */
  lemma LabelDotTld(l: string, t: string)
    requires Label(l) && TldName(t)
    ensures HostName(l + ['.'] + t)
  {
    LabelHasNoDot(l);
    TldNameHasNoDot(t);
    SplitConcat(l, '.', t);
    SinglePiece(t, '.');
    assert Split(t, '.') == [t];
    HostNameIff(l + ['.'] + t);
  }

  lemma LabelDotTldChars(l: string, t: string)
    requires Label(l) && TldName(t)
    ensures NoSeparators(l + ['.'] + t)
  {
    var h := l + ['.'] + t;
    LabelIff(l);
    assert forall i :: 0 <= i < |l| ==> h[i] == l[i];
    assert forall i :: 0 <= i < |t| ==> h[|l| + 1 + i] == t[i];
  }

  /** A lower-case label, a '.' and a top-level domain of two or more letters
      make a URL. */
  lemma LabelAndTldIsUrl(l: string, t: string)
    requires Label(l) && TldName(t) && ToLower(l) == l && ToLower(t) == t
    ensures IsUrl(l + ['.'] + t)
  {
    var h := l + ['.'] + t;
    LabelDotTld(l, t);
    LabelDotTldChars(l, t);
    ToLowerConcat(l + ['.'], t);
    ToLowerConcat(l, ['.']);
    assert ToLower(h) == h;
    BareInputIsUrl(h);
  }

  /** The last '.'-piece of a text ending with '.' and a character other than '.'
      is that character. */
  lemma LastPieceAfterDotChar(y: string, c: char)
    requires c != '.'
    ensures Last(Split(y + ['.', c], '.')) == [c]
  {
    var r := y + ['.', c];
    assert r[|r| - 2..] == ['.'] + [c];
    var k := SplitLast(r, '.');
    SplitPiecesHaveNoSep(r, '.');
    LastPieceAfterDot(r, [c], k);
  }

  /** A host ending with '.' and one character that is not a '.' is a host name
      only when that character is above U+FFFF, two UTF-16 code units. */
  lemma OneCharTldNotHostName(y: string, c: char)
    requires c != '.'
    ensures HostName(y + ['.', c]) ==> IsSupplementary(c)
  {
    var r := y + ['.', c];
    LastPieceAfterDotChar(y, c);
    if HostName(r) {
      HostNameIff(r);
      assert TldName([c]);
      Utf16AtLeastTwo([c]);
    }
  }

  /** A label, a '.' and one character above U+FFFF is a URL: the top-level
      domain has two code units. */
  lemma SupplementaryTldIsUrl(l: string, c: char)
    requires Label(l) && ToLower(l) == l && IsTldChar(c) && IsSupplementary(c)
    ensures IsUrl(l + ['.', c])
  {
    Utf16AtLeastTwo([c]);
    assert l + ['.'] + [c] == l + ['.', c];
    LabelAndTldIsUrl(l, [c]);
  }

  lemma SupplementaryTldExample()
    ensures IsUrl("a.\U{1F600}")
  {
    assert Label("a") by { LabelIff("a"); }
    SupplementaryTldIsUrl("a", '\U{1F600}');
    assert "a" + ['.', '\U{1F600}'] == "a.\U{1F600}";
  }

  /** An address ends with a digit. */
  lemma NotAddressUnlessDigitLast(r: string, r': string)
    requires |r| >= 1 && !IsAsciiDigit(r[|r| - 1])
    ensures HostPart(r, r') <==> HostName(r)
  {
    if IpAddress(r) {
      IpAddressShape(r);
    }
  }

  /** A top-level domain of one letter is not enough. */
  lemma OneLetterTldRejected(x: string, c: char)
    requires NoSeparators(x) && IsAsciiLetter(c)
    ensures !IsUrl(x + ['.', c])
  {
    var s := x + ['.', c];
    var r := LowerDotChar(x, c);
    OneCharTldNotHostName(ToLower(x), LowerChar(c));
    NotAddressUnlessDigitLast(r, r);
    BareInputIsUrl(s);
  }

  /** The lower-case form of `x + ['.', c]`, which has no separator and is not
      "localhost". */
  lemma LowerDotChar(x: string, c: char) returns (r: string)
    requires NoSeparators(x) && IsAsciiLetter(c)
    ensures r == ToLower(x + ['.', c]) && r == ToLower(x) + ['.', LowerChar(c)]
    ensures NoSeparators(x + ['.', c]) && r != "localhost" && !IsAsciiDigit(r[|r| - 1])
  {
    var s := x + ['.', c];
    assert forall i :: 0 <= i < |x| ==> s[i] == x[i];
    r := ToLower(s);
    ToLowerConcat(x, ['.', c]);
    assert ToLower(['.', c]) == ['.', LowerChar(c)];
    assert r[|r| - 2] == '.' && '.' !in "localhost";
  }

  // ---------------------------------------------------------------------------
  // The everyday shape

  /** A protocol word, "://", a label, '.', a top-level domain, '/' and a path
      without white space and '@', all lower-case, is a URL. */
  lemma ProtocolNamePathIsUrl(w: string, l: string, t: string, p: string)
    requires |w| >= 1 && forall x :: 0 <= x < |w| ==> IsWordChar(w[x])
    requires Label(l) && TldName(t)
    requires NonBlank(p) && forall x :: 0 <= x < |p| ==> p[x] != '@'
    requires ToLower(w) == w && ToLower(l) == l && ToLower(t) == t && ToLower(p) == p
    ensures IsUrl(w + "://" + (l + ['.'] + t + ['/'] + p))
  {
    var rest := l + ['.'] + t + ['/'] + p;
    NamePath(l, t, p);
    WithProtocol(w, rest);
    LowerProtocolRest(w, l, t, p);
  }

  /** A label, '.', a top-level domain, '/' and a path without white space and
      '@' is what the pattern accepts after the user information, and has no '@'. */
  lemma NamePath(l: string, t: string, p: string)
    requires Label(l) && TldName(t)
    requires NonBlank(p) && forall x :: 0 <= x < |p| ==> p[x] != '@'
    ensures var rest := l + ['.'] + t + ['/'] + p;
      AfterUserInfo(rest) && forall x :: 0 <= x < |rest| ==> rest[x] != '@'
  {
    var h := l + ['.'] + t;
    LabelDotTld(l, t);
    LabelDotTldChars(l, t);
    HostPathIff(h, p);
    PathWithoutAt(h, p);
  }

  /** A text without separators, '/' and a path without '@' has no '@'. */
  lemma PathWithoutAt(h: string, p: string)
    requires NoSeparators(h) && forall x :: 0 <= x < |p| ==> p[x] != '@'
    ensures var rest := h + ['/'] + p; forall x :: 0 <= x < |rest| ==> rest[x] != '@'
  {
    var rest := h + ['/'] + p;
    forall x | 0 <= x < |rest| ensures rest[x] != '@' {
      if x > |h| { assert rest[x] == p[x - |h| - 1]; }
    }
  }

  /** Lower-casing leaves such a text as it is. */
  lemma LowerProtocolRest(w: string, l: string, t: string, p: string)
    requires ToLower(w) == w && ToLower(l) == l && ToLower(t) == t && ToLower(p) == p
    ensures var s := w + "://" + (l + ['.'] + t + ['/'] + p); ToLower(s) == s
  {
    ToLowerConcat(w, "://");
    ToLowerConcat(w + "://", l + ['.'] + t + ['/'] + p);
    ToLowerConcat(l + ['.'] + t + ['/'], p);
    ToLowerConcat(l + ['.'] + t, ['/']);
    ToLowerConcat(l + ['.'], t);
    ToLowerConcat(l, ['.']);
    assert ToLower("://") == "://" && ToLower(['.']) == ['.'] && ToLower(['/']) == ['/'];
  }

  /** "https://a.bc/x" is a URL. */
  lemma ProtocolNamePathExample()
    ensures IsUrl("https://a.bc/x")
  {
    assert "https" + "://" + ("a" + ['.'] + "bc" + ['/'] + "x") == "https://a.bc/x";
    assert Label("a") by { LabelIff("a"); }
    assert TldName("bc") by { Utf16AtLeastTwo("bc"); }
    assert ToLower("https") == "https" && ToLower("a") == "a" && ToLower("bc") == "bc" && ToLower("x") == "x";
    ProtocolNamePathIsUrl("https", "a", "bc", "x");
  }
}
