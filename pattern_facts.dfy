/** Equivalent descriptions of the fragments of `urlPattern`: labels by their
    characters, host names and addresses by `Split` on '.', octets by their
    decimal value; and how the whole pattern reduces when the input has no
    separator characters. */
module PatternFacts {
  import opened Text
  import opened UrlRegex

  // ---------------------------------------------------------------------------
  // Labels

  predicate HostOrDash(s: string) { forall i :: 0 <= i < |s| ==> IsHostChar(s[i]) || s[i] == '-' }

  /** A label: host characters and dashes, beginning and ending with a host character. */
  predicate LabelChars(s: string) {
    |s| >= 1 && IsHostChar(s[0]) && IsHostChar(s[|s| - 1]) && HostOrDash(s)
  }

  /** The first index at or after `i` that does not hold a dash. */
  function SkipDashes(s: string, i: nat): (r: nat)
    requires i <= |s|
    ensures i <= r <= |s| && (forall j :: i <= j < r ==> s[j] == '-') && (r < |s| ==> s[r] != '-')
    decreases |s| - i
  {
    if i < |s| && s[i] == '-' then SkipDashes(s, i + 1) else i
  }

  lemma DashRunsIff(s: string)
    ensures DashRuns(s) <==> s == [] || (IsHostChar(s[0]) && HostOrDash(s))
  {
    if DashRuns(s) {
      DashRunsChars(s);
    }
    if s != [] && IsHostChar(s[0]) && HostOrDash(s) {
      CharsDashRuns(s);
    }
  }

  lemma {:induction false} DashRunsChars(s: string)
    requires DashRuns(s)
    ensures s == [] || (IsHostChar(s[0]) && HostOrDash(s))
    decreases |s|
  {
    if s != [] {
      var k :| 1 <= k <= |s| && (forall i :: 1 <= i < k ==> s[i] == '-') && DashRuns(s[k..]);
      DashRunsChars(s[k..]);
      forall i | 0 <= i < |s| ensures IsHostChar(s[i]) || s[i] == '-' {
        if i >= k { assert s[i] == s[k..][i - k]; }
      }
    }
  }

  lemma {:induction false} CharsDashRuns(s: string)
    requires s != [] && IsHostChar(s[0]) && HostOrDash(s)
    ensures DashRuns(s)
    decreases |s|
  {
    var k := SkipDashes(s, 1);
    assert HostOrDash(s[k..]) by {
      forall i | 0 <= i < |s| - k ensures IsHostChar(s[k..][i]) || s[k..][i] == '-' {
        assert s[k..][i] == s[k + i];
      }
    }
    if k < |s| {
      assert s[k..][0] == s[k];
      CharsDashRuns(s[k..]);
    } else {
      assert s[k..] == [];
    }
  }

  lemma LabelIff(s: string)
    ensures Label(s) <==> LabelChars(s)
  {
    if Label(s) {
      var k :| 0 <= k < |s| && DashRuns(s[..k]) && forall i :: k <= i < |s| ==> IsHostChar(s[i]);
      DashRunsIff(s[..k]);
      if k > 0 { assert s[..k][0] == s[0]; }
      forall i | 0 <= i < |s| ensures IsHostChar(s[i]) || s[i] == '-' {
        if i < k { assert s[..k][i] == s[i]; }
      }
    }
    if LabelChars(s) {
      var k := |s| - 1;
      DashRunsIff(s[..k]);
      if k > 0 { assert s[..k][0] == s[0]; }
      assert HostOrDash(s[..k]) by {
        forall i | 0 <= i < k ensures IsHostChar(s[..k][i]) || s[..k][i] == '-' { assert s[..k][i] == s[i]; }
      }
      assert DashRuns(s[..k]);
    }
  }

  lemma LabelHasNoDot(s: string)
    requires Label(s)
    ensures '.' !in s && |s| >= 1
  {
    LabelIff(s);
    assert forall i :: 0 <= i < |s| ==> s[i] != '.';
  }

  // ---------------------------------------------------------------------------
  // Domain names

  /** A top-level domain without its dot: letters, at least two UTF-16 code units. */
  predicate TldName(w: string) { Utf16Length(w) >= 2 && forall i :: 0 <= i < |w| ==> IsTldChar(w[i]) }

  /** The '.'-pieces of a domain: labels, then a top-level domain. */
  predicate LabelsThenTld(p: seq<string>) {
    |p| >= 1 && (forall i :: 0 <= i < |p| - 1 ==> Label(p[i])) && TldName(p[|p| - 1])
  }

  lemma TldNameHasNoDot(w: string)
    requires TldName(w)
    ensures '.' !in w
  {
    assert forall i :: 0 <= i < |w| ==> w[i] != '.';
  }

  lemma LabelsThenTldCons(l: string, p: seq<string>)
    requires Label(l) && p != []
    ensures LabelsThenTld([l] + p) <==> LabelsThenTld(p)
  {
    var q := [l] + p;
    assert q[|q| - 1] == p[|p| - 1];
    if LabelsThenTld(p) {
      forall i | 0 <= i < |q| - 1 ensures Label(q[i]) { if i > 0 { assert q[i] == p[i - 1]; } }
    }
    if LabelsThenTld(q) {
      forall i | 0 <= i < |p| - 1 ensures Label(p[i]) { assert q[i + 1] == p[i]; }
    }
  }

  lemma {:induction false} DomainTailSplit(t: string)
    requires DomainTail(t)
    ensures |t| >= 1 && t[0] == '.' && LabelsThenTld(Split(t[1..], '.'))
    decreases |t|
  {
    if Tld(t) {
      var w := t[1..];
      assert TldName(w) by { forall i | 0 <= i < |w| ensures IsTldChar(w[i]) { assert w[i] == t[i + 1]; } }
      TldNameHasNoDot(w);
    } else {
      var m :| 2 <= m < |t| && Label(t[1..m]) && DomainTail(t[m..]);
      DomainTailSplit(t[m..]);
      LabelHasNoDot(t[1..m]);
      DotJoin(t, m);
      SplitConcat(t[1..m], '.', t[m + 1..]);
      LabelsThenTldCons(t[1..m], Split(t[m + 1..], '.'));
    }
  }

  lemma {:induction false} SplitDomainTail(t: string)
    requires |t| >= 1 && t[0] == '.' && LabelsThenTld(Split(t[1..], '.'))
    ensures DomainTail(t)
    decreases |t|
  {
    if '.' in t[1..] {
      var m := DomainStep(t);
      SplitDomainTail(t[m..]);
    } else {
      var w := t[1..];
      assert Split(w, '.') == [w];
      assert Tld(t) by { forall i | 1 <= i < |t| ensures IsTldChar(t[i]) { assert t[i] == w[i - 1]; } }
    }
  }

  /** The first label of a domain tail and the '.' at `m` that ends it. */
  lemma DomainStep(t: string) returns (m: nat)
    requires |t| >= 1 && t[0] == '.' && LabelsThenTld(Split(t[1..], '.')) && '.' in t[1..]
    ensures 2 <= m < |t| && Label(t[1..m]) && t[m] == '.' && LabelsThenTld(Split(t[m..][1..], '.'))
  {
    var w := t[1..];
    var p := Split(w, '.');
    var i := IndexOf(w, '.');
    assert p == [w[..i]] + Split(w[i + 1..], '.');
    assert Label(p[0]);
    LabelHasNoDot(p[0]);
    m := i + 1;
    assert t[1..m] == w[..i];
    assert t[m..][1..] == w[i + 1..];
    assert p[1..] == Split(w[i + 1..], '.');
    LabelsThenTldCons(p[0], p[1..]);
  }

  /** `(?:\.label)*(?:\.tld)` is a dot followed by '.'-pieces that are labels
      and then a top-level domain. */
  lemma DomainTailIff(t: string)
    ensures DomainTail(t) <==> |t| >= 1 && t[0] == '.' && LabelsThenTld(Split(t[1..], '.'))
  {
    if DomainTail(t) { DomainTailSplit(t); }
    if |t| >= 1 && t[0] == '.' && LabelsThenTld(Split(t[1..], '.')) { SplitDomainTail(t); }
  }

  /** A host name is the '.'-separated sequence of at least one label and a
      top-level domain of two or more letters. */
  lemma HostNameIff(h: string)
    ensures HostName(h) <==> |Split(h, '.')| >= 2 && LabelsThenTld(Split(h, '.'))
  {
    if HostName(h) {
      var k :| 1 <= k < |h| && Label(h[..k]) && DomainTail(h[k..]);
      HostNameSplit(h, k);
    }
    if |Split(h, '.')| >= 2 && LabelsThenTld(Split(h, '.')) {
      SplitHostName(h);
    }
  }

  lemma HostNameSplit(h: string, k: nat)
    requires 1 <= k < |h| && Label(h[..k]) && DomainTail(h[k..])
    ensures |Split(h, '.')| >= 2 && LabelsThenTld(Split(h, '.'))
  {
    var l, t := h[..k], h[k..];
    DomainTailIff(t);
    LabelHasNoDot(l);
    var u := t[1..];
    DotSplitAt(h, k);
    SplitConcat(l, '.', u);
    LabelsThenTldCons(l, Split(u, '.'));
  }

  lemma SplitHostName(h: string)
    requires |Split(h, '.')| >= 2 && LabelsThenTld(Split(h, '.'))
    ensures HostName(h)
  {
    var p := Split(h, '.');
    SinglePiece(h, '.');
    var i := IndexOf(h, '.');
    var q := Split(h[i + 1..], '.');
    assert p == [h[..i]] + q;
    assert p[0] == h[..i] && p[1..] == q;
    LabelHasNoDot(p[0]);
    LabelsThenTldCons(p[0], q);
    assert h[i..][1..] == h[i + 1..];
    DomainTailIff(h[i..]);
  }

  /** After its first character, `t` is the text up to the '.' at `m`, the
      '.' and the rest. */
  lemma DotJoin(t: string, m: nat)
    requires 1 <= m < |t| && t[m] == '.'
    ensures t[1..] == t[1..m] + ['.'] + t[m + 1..] && t[m..][1..] == t[m + 1..]
  {
  }

  /** `h` is its prefix, a '.' at `k` and the rest. */
  lemma DotSplitAt(h: string, k: nat)
    requires k < |h| && h[k] == '.'
    ensures h == h[..k] + ['.'] + h[k..][1..]
  {
  }

  /** Characters a host name can contain. */
  predicate NameChar(c: char) { IsHostChar(c) || c == '-' || c == '.' }

  lemma {:induction false} DomainTailShape(t: string)
    requires DomainTail(t)
    ensures |t| >= 2 && IsTldChar(t[|t| - 1])
    ensures forall i :: 0 <= i < |t| ==> NameChar(t[i])
    decreases |t|
  {
    if !Tld(t) {
      var m :| 2 <= m < |t| && Label(t[1..m]) && DomainTail(t[m..]);
      DomainTailShape(t[m..]);
      LabelIff(t[1..m]);
      assert t[|t| - 1] == t[m..][|t| - m - 1];
      forall i | 0 <= i < |t| ensures NameChar(t[i]) {
        if 1 <= i < m { assert t[i] == t[1..m][i - 1]; }
        if m <= i { assert t[i] == t[m..][i - m]; }
      }
    }
  }

  /** A host name ends in a letter and consists of name characters. */
  lemma HostNameShape(h: string)
    requires HostName(h)
    ensures |h| >= 3 && IsTldChar(h[|h| - 1])
    ensures forall i :: 0 <= i < |h| ==> NameChar(h[i])
  {
    var k :| 1 <= k < |h| && Label(h[..k]) && DomainTail(h[k..]);
    DomainTailShape(h[k..]);
    LabelIff(h[..k]);
    assert h[|h| - 1] == h[k..][|h| - k - 1];
    forall i | 0 <= i < |h| ensures NameChar(h[i]) {
      if i < k { assert h[i] == h[..k][i]; } else { assert h[i] == h[k..][i - k]; }
    }
  }

  // ---------------------------------------------------------------------------
  // Octets

  lemma Pow10AtLeast1000(k: nat)
    requires k >= 3
    ensures Pow10(k) >= 1000
  {
    if k > 3 { Pow10AtLeast1000(k - 1); }
  }

  /** A canonical number of at most 999 has at most three digits. */
  lemma ShortCanonical(s: string)
    requires Canonical(s) && DecimalValue(s) < 1000
    ensures |s| <= 3
  {
    if |s| > 3 {
      DecimalLowerBound(s);
      Pow10AtLeast1000(|s| - 1);
    }
  }

  /** The first octet is a decimal number from 1 to 223 without a leading zero. */
  lemma FirstOctetValue(s: string)
    ensures FirstOctet(s) <==> Canonical(s) && 1 <= DecimalValue(s) <= 223
  {
    if |s| == 2 && AllDigits(s) { DecimalValue2(s); }
    if |s| == 3 && AllDigits(s) { DecimalValue3(s); }
    if Canonical(s) && 1 <= DecimalValue(s) <= 223 { ShortCanonical(s); }
  }

  /** A middle octet is a decimal number from 0 to 255 of one to three digits;
      a leading zero is allowed on two-digit forms only. */
  lemma MidOctetValue(s: string)
    ensures MidOctet(s) <==>
      AllDigits(s) && 1 <= |s| <= 3 && DecimalValue(s) <= 255 && (|s| == 3 ==> s[0] != '0')
  {
    if |s| == 2 && AllDigits(s) { DecimalValue2(s); }
    if |s| == 3 && AllDigits(s) { DecimalValue3(s); }
  }

  /** The last octet is a decimal number from 1 to 254 without a leading zero. */
  lemma LastOctetValue(s: string)
    ensures LastOctet(s) <==> Canonical(s) && 1 <= DecimalValue(s) <= 254
  {
    if |s| == 2 && AllDigits(s) { DecimalValue2(s); }
    if |s| == 3 && AllDigits(s) { DecimalValue3(s); }
    if Canonical(s) && 1 <= DecimalValue(s) <= 254 { ShortCanonical(s); }
  }

  // ---------------------------------------------------------------------------
  // Dotted quads

  predicate DigitsOrDots(s: string) { forall i :: 0 <= i < |s| ==> IsAsciiDigit(s[i]) || s[i] == '.' }

  /** Shape facts about a prefix and the matching suffix hold of the whole string. */
  lemma DigitsOrDotsJoin(h: string, a: nat)
    requires a <= |h| && DigitsOrDots(h[..a]) && DigitsOrDots(h[a..])
    ensures DigitsOrDots(h)
  {
    forall i | 0 <= i < |h| ensures IsAsciiDigit(h[i]) || h[i] == '.' {
      if i < a { assert h[i] == h[..a][i]; } else { assert h[i] == h[a..][i - a]; }
    }
  }

  /** An octet is a non-empty run of digits. */
  lemma OctetShape(s: string)
    requires FirstOctet(s) || MidOctet(s) || LastOctet(s)
    ensures |s| >= 1 && AllDigits(s) && '.' !in s && DigitsOrDots(s) && IsAsciiDigit(s[|s| - 1])
  {
    assert forall i :: 0 <= i < |s| ==> s[i] != '.';
  }

  /** A dot followed by an octet. */
  lemma DotOctetShape(t: string, e: nat)
    requires 1 <= e <= |t| && t[0] == '.' && (MidOctet(t[1..e]) || LastOctet(t[1..e]))
    ensures DigitsOrDots(t[..e]) && IsAsciiDigit(t[e - 1])
  {
    OctetShape(t[1..e]);
    assert t[e - 1] == t[1..e][e - 2];
    forall i | 1 <= i < e ensures IsAsciiDigit(t[..e][i]) { assert t[..e][i] == t[1..e][i - 1]; }
  }

  lemma {:induction false} OctetGroupsShape(t: string, n: nat)
    requires OctetGroups(t, n)
    ensures |t| >= 2 && t[0] == '.' && IsAsciiDigit(t[|t| - 1]) && DigitsOrDots(t)
    decreases n, 1
  {
    if n == 0 {
      LastGroupShape(t);
    } else {
      var e := MidGroup(t, n);
      MidGroupsShape(t, n, e);
    }
  }

  lemma {:induction false} MidGroupsShape(t: string, n: nat, e: nat)
    requires n >= 1 && 2 <= e < |t| && DigitsOrDots(t[..e]) && OctetGroups(t[e..], n - 1)
    ensures IsAsciiDigit(t[|t| - 1]) && DigitsOrDots(t)
    decreases n, 0
  {
    OctetGroupsShape(t[e..], n - 1);
    GroupThenShape(t, e);
  }

  /** The end of the first group of `OctetGroups(t, n)` when `n >= 1`, and the
      shape of that group. */
  lemma MidGroup(t: string, n: nat) returns (e: nat)
    requires n >= 1 && OctetGroups(t, n)
    ensures 2 <= e < |t| && t[0] == '.' && OctetGroups(t[e..], n - 1)
    ensures DigitsOrDots(t[..e])
  {
    e :| 2 <= e < |t| && MidOctet(t[1..e]) && OctetGroups(t[e..], n - 1);
    DotOctetShape(t, e);
  }

  lemma LastGroupShape(t: string)
    requires |t| >= 2 && t[0] == '.' && LastOctet(t[1..])
    ensures IsAsciiDigit(t[|t| - 1]) && DigitsOrDots(t)
  {
    assert t[1..|t|] == t[1..];
    DotOctetShape(t, |t|);
    DigitsOrDotsJoin(t, |t|);
  }

  /** A group of digits and dots in front of a group of the same shape. */
  lemma GroupThenShape(t: string, e: nat)
    requires 2 <= e < |t| && DigitsOrDots(t[..e])
    requires IsAsciiDigit(t[e..][|t[e..]| - 1]) && DigitsOrDots(t[e..])
    ensures IsAsciiDigit(t[|t| - 1]) && DigitsOrDots(t)
  {
    assert t[e..][|t[e..]| - 1] == t[|t| - 1];
    DigitsOrDotsJoin(t, e);
  }

  /** An address consists of digits and dots and ends in a digit. */
  lemma IpAddressShape(h: string)
    requires IpAddress(h)
    ensures |h| >= 7 && IsAsciiDigit(h[|h| - 1]) && DigitsOrDots(h)
  {
    var a :| 1 <= a < |h| && FirstOctet(h[..a]) && OctetGroups(h[a..], 2);
    OctetGroupsShape(h[a..], 2);
    OctetShape(h[..a]);
    DigitsOrDotsJoin(h, a);
    assert h[|h| - 1] == h[a..][|h| - 1 - a];
  }

  // ---------------------------------------------------------------------------
  // Where the host part ends

  /** None of the characters that end a host: ':', '/' and '@'. */
  predicate NoSeparators(s: string) {
    forall i :: 0 <= i < |s| ==> s[i] != ':' && s[i] != '/' && s[i] != '@'
  }

  /** A host, whether a name or an address, has at least three characters and
      no separator. */
  lemma HostPartShape(h: string, r: string)
    requires HostPart(h, r)
    ensures |h| >= 3 && NoSeparators(h)
  {
    if HostName(h) { HostNameShape(h); } else { IpAddressShape(h); }
  }
}
