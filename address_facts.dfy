/** Dotted quads `a.b.c.d` written without leading zeros: which of them the
    address branch of `urlPattern` accepts, and which the private-network
    look-aheads exclude. */
module AddressFacts {
  import opened Text
  import opened UrlRegex
  import opened PatternFacts

  /** Each number preceded by a dot. */
  function DotNumbers(ns: seq<nat>): string
  {
    if ns == [] then [] else ['.'] + DecimalString(ns[0]) + DotNumbers(ns[1..])
  }

  /** The text "a.b.c.d". */
  function Quad(a: nat, b: nat, c: nat, d: nat): string {
    DecimalString(a) + DotNumbers([b, c, d])
  }

  lemma DotNumbersCons(ns: seq<nat>)
    requires |ns| >= 1
    ensures DotNumbers(ns) == ['.'] + DecimalString(ns[0]) + DotNumbers(ns[1..])
    ensures |DotNumbers(ns)| >= 2 && DotNumbers(ns)[0] == '.'
  {
  }

  /** A number has at most three digits exactly when it is below 1000. */
  lemma DecimalStringShort(n: nat)
    ensures |DecimalString(n)| <= 3 <==> n < 1000
  {
    var s := DecimalString(n);
    DecimalRoundTrip(n);
    if n < 1000 { ShortCanonical(s); }
    if |s| <= 3 {
      DecimalUpperBound(s);
      assert Pow10(|s|) <= Pow10(3);
    }
  }

  /** Digits, then a dot: the only dot at or before index `k` is at `|x|`. */
  lemma FirstDot(x: string, y: string, k: nat)
    requires AllDigits(x) && |y| >= 1 && y[0] == '.'
    requires k < |x + y| && (x + y)[k] == '.' && AllDigits((x + y)[..k])
    ensures k == |x| && (x + y)[..k] == x && (x + y)[k..] == y
  {
    var s := x + y;
    assert forall i :: 0 <= i < |x| ==> s[i] == x[i];
    assert forall i :: 0 <= i < k ==> s[..k][i] == s[i];
    assert s[|x|] == '.';
  }

  /** The number at the start of `DecimalString(n) + rest`, where `rest`
      begins with a dot, reads as the digits `w` exactly when `w` is its rendering. */
  lemma LeadingNumber(n: nat, w: string, rest: string)
    requires AllDigits(w) && |rest| >= 1 && rest[0] == '.'
    ensures var s := DecimalString(n) + rest;
      (StartsWith(s, w) && |s| > |w| && s[|w|] == '.') <==> DecimalString(n) == w
    ensures DecimalString(n) == w ==> (DecimalString(n) + rest)[|w|..] == rest
  {
    var x := DecimalString(n);
    var s := x + rest;
    if StartsWith(s, w) && |s| > |w| && s[|w|] == '.' {
      FirstDot(x, rest, |w|);
    }
    if x == w {
      assert s[..|w|] == w;
      assert s[|w|..] == rest;
    }
  }

  /** A canonical digit string is the rendering of its value and of no other number. */
  lemma RenderingOfValue(n: nat, w: string)
    requires Canonical(w)
    ensures DecimalString(n) == w <==> n == DecimalValue(w)
  {
    DecimalRoundTrip(n);
    CanonicalRoundTrip(w);
  }

  // ---------------------------------------------------------------------------
  // The address branch

  /** A canonical number is a middle octet exactly when it is at most 255. */
  lemma MidOctetNumber(n: nat)
    ensures MidOctet(DecimalString(n)) <==> n <= 255
  {
    var s := DecimalString(n);
    DecimalRoundTrip(n);
    MidOctetValue(s);
    if n <= 255 { ShortCanonical(s); }
  }

  lemma FirstOctetNumber(n: nat)
    ensures FirstOctet(DecimalString(n)) <==> 1 <= n <= 223
  {
    DecimalRoundTrip(n);
    FirstOctetValue(DecimalString(n));
  }

  lemma LastOctetNumber(n: nat)
    ensures LastOctet(DecimalString(n)) <==> 1 <= n <= 254
  {
    DecimalRoundTrip(n);
    LastOctetValue(DecimalString(n));
  }

  /** One middle octet after a dot, in front of further groups. */
  lemma OctetGroupsStep(x: string, y: string, n: nat)
    requires n >= 1 && AllDigits(x) && |y| >= 1 && y[0] == '.'
    ensures OctetGroups(['.'] + x + y, n) <==> MidOctet(x) && OctetGroups(y, n - 1)
  {
    if OctetGroups(['.'] + x + y, n) {
      OctetGroupsStepOnly(x, y, n);
    }
    if MidOctet(x) && OctetGroups(y, n - 1) {
      DotSlices(x, y, |x| + 1);
    }
  }

  lemma OctetGroupsStepOnly(x: string, y: string, n: nat)
    requires n >= 1 && AllDigits(x) && |y| >= 1 && y[0] == '.'
    requires OctetGroups(['.'] + x + y, n)
    ensures MidOctet(x) && OctetGroups(y, n - 1)
  {
    var t := ['.'] + x + y;
    var e :| 2 <= e < |t| && MidOctet(t[1..e]) && OctetGroups(t[e..], n - 1);
    OctetShape(t[1..e]);
    DotSlices(x, y, e);
    FirstDot(x, y, e - 1);
  }

  /** The slices of `['.'] + x + y` at `e`. */
  lemma DotSlices(x: string, y: string, e: nat)
    requires 1 <= e <= |x| + |y| + 1
    ensures var t := ['.'] + x + y;
      t[1..] == x + y && (x + y)[..e - 1] == t[1..e] && (x + y)[e - 1..] == t[e..] &&
      (x + y)[..|x|] == x && (x + y)[|x|..] == y
  {
  }

  /** The numbers of `n` middle octets and a last one are in range. */
  predicate NumbersFit(ns: seq<nat>, n: nat)
    requires |ns| == n + 1
  {
    (forall i :: 0 <= i < n ==> ns[i] <= 255) && 1 <= ns[n] <= 254
  }

  lemma NumbersFitCons(ns: seq<nat>, n: nat)
    requires |ns| == n + 1 && n >= 1
    ensures NumbersFit(ns, n) <==> ns[0] <= 255 && NumbersFit(ns[1..], n - 1)
  {
    assert forall i :: 0 <= i < n ==> ns[1..][i] == ns[i + 1];
  }

  /** `n` middle octets and a last one, each after a dot. */
  lemma {:induction false} OctetGroupsNumbers(ns: seq<nat>, n: nat)
    requires |ns| == n + 1
    ensures OctetGroups(DotNumbers(ns), n) <==> NumbersFit(ns, n)
    decreases n
  {
    var x := DecimalString(ns[0]);
    DotNumbersCons(ns);
    if n == 0 {
      assert DotNumbers(ns[1..]) == [];
      assert DotNumbers(ns)[1..] == x;
      LastOctetNumber(ns[0]);
    } else {
      DotNumbersCons(ns[1..]);
      OctetGroupsStep(x, DotNumbers(ns[1..]), n);
      OctetGroupsNumbers(ns[1..], n - 1);
      MidOctetNumber(ns[0]);
      NumbersFitCons(ns, n);
    }
  }

  /** The address branch accepts "a.b.c.d" exactly when a is 1 to 223, b and c
      are at most 255 and d is 1 to 254. */
  lemma QuadAddress(a: nat, b: nat, c: nat, d: nat)
    ensures IpAddress(Quad(a, b, c, d)) <==> 1 <= a <= 223 && b <= 255 && c <= 255 && 1 <= d <= 254
  {
    var q := Quad(a, b, c, d);
    var x := DecimalString(a);
    var t := DotNumbers([b, c, d]);
    DotNumbersCons([b, c, d]);
    DecimalRoundTrip(a);
    FirstOctetNumber(a);
    OctetGroupsNumbers([b, c, d], 2);
    assert NumbersFit([b, c, d], 2) <==> b <= 255 && c <= 255 && 1 <= d <= 254;
    if IpAddress(q) {
      var k :| 1 <= k < |q| && FirstOctet(q[..k]) && OctetGroups(q[k..], 2);
      OctetShape(q[..k]);
      OctetGroupsShape(q[k..], 2);
      FirstDot(x, t, k);
    }
    if 1 <= a <= 223 && b <= 255 && c <= 255 && 1 <= d <= 254 {
      assert q[..|x|] == x && q[|x|..] == t;
    }
  }

  // ---------------------------------------------------------------------------
  // The private-network look-aheads

  /** A group of one to three digits after a dot, in front of a further group. */
  lemma DotGroupsAheadCons(x: string, y: string, n: nat)
    requires n >= 1 && |x| >= 1 && AllDigits(x) && |y| >= 1 && y[0] == '.'
    ensures DotGroupsAhead(['.'] + x + y, n + 1) <==> |x| <= 3 && DotGroupsAhead(y, n)
  {
    var r := ['.'] + x + y;
    assert r[1..] == x + y;
    if DotGroupsAhead(r, n + 1) {
      var e :| 2 <= e <= 4 && e <= |r| && AllDigits(r[1..e]) && DotGroupsAhead(r[e..], n);
      assert r[1..][..e - 1] == r[1..e];
      FirstDot(x, y, e - 1);
      assert r[e..] == y;
    }
    if |x| <= 3 && DotGroupsAhead(y, n) {
      var e := |x| + 1;
      assert r[1..e] == x && r[e..] == y;
    }
  }

  /** The last group a look-ahead examines needs one digit only. */
  lemma DotGroupsAheadLast(x: string, y: string)
    requires |x| >= 1 && AllDigits(x)
    ensures DotGroupsAhead(['.'] + x + y, 1)
  {
    var r := ['.'] + x + y;
    assert r[1..2] == [x[0]];
    assert DotGroupsAhead(r[2..], 0);
  }

  /** `n` dot groups ahead: every number the look-ahead passes over has at most
      three digits. */
  lemma {:induction false} DotNumbersAhead(ns: seq<nat>, n: nat)
    requires 1 <= n <= |ns|
    ensures DotGroupsAhead(DotNumbers(ns), n) <==> forall i :: 0 <= i < n - 1 ==> ns[i] < 1000
    decreases n
  {
    var x := DecimalString(ns[0]);
    DotNumbersCons(ns);
    if n == 1 {
      DotGroupsAheadLast(x, DotNumbers(ns[1..]));
    } else {
      DotNumbersCons(ns[1..]);
      DotGroupsAheadCons(x, DotNumbers(ns[1..]), n - 1);
      DecimalStringShort(ns[0]);
      DotNumbersAhead(ns[1..], n - 1);
      BelowCons(ns, n - 1);
    }
  }

  lemma BelowCons(ns: seq<nat>, m: nat)
    requires 1 <= m < |ns|
    ensures (forall i :: 0 <= i < m ==> ns[i] < 1000) <==>
      ns[0] < 1000 && forall i :: 0 <= i < m - 1 ==> ns[1..][i] < 1000
  {
    if forall i :: 0 <= i < m ==> ns[i] < 1000 {
      forall i | 0 <= i < m - 1 ensures ns[1..][i] < 1000 { assert ns[1..][i] == ns[i + 1]; }
    }
    if ns[0] < 1000 && forall i :: 0 <= i < m - 1 ==> ns[1..][i] < 1000 {
      forall i | 0 <= i < m ensures ns[i] < 1000 { if i > 0 { assert ns[i] == ns[1..][i - 1]; } }
    }
  }

  /** The digits `w` at the start of `DecimalString(n) + DotNumbers(ns)`,
      followed by `k` dot groups. */
  lemma LeadingNumberAhead(n: nat, w: string, ns: seq<nat>, k: nat)
    requires AllDigits(w) && 1 <= k <= |ns|
    ensures var s := DecimalString(n) + DotNumbers(ns);
      (StartsWith(s, w) && DotGroupsAhead(s[|w|..], k)) <==>
      DecimalString(n) == w && DotGroupsAhead(DotNumbers(ns), k)
  {
    var s := DecimalString(n) + DotNumbers(ns);
    DotNumbersCons(ns);
    LeadingNumber(n, w, DotNumbers(ns));
    if StartsWith(s, w) && DotGroupsAhead(s[|w|..], k) {
      assert s[|w|..][0] == s[|w|];
    }
  }

  lemma StartsWithDotted(q: string, u: string, v: string)
    ensures StartsWith(q, u + ['.'] + v) <==>
      StartsWith(q, u) && |q| > |u| && q[|u|] == '.' && StartsWith(q[|u| + 1..], v)
  {
    var w := u + ['.'] + v;
    if StartsWith(q, w) {
      assert q[..|u|] == q[..|w|][..|u|];
      assert q[|u|] == q[..|w|][|u|];
      assert q[|u| + 1..][..|v|] == q[..|w|][|u| + 1..];
    }
    if StartsWith(q, u) && |q| > |u| && q[|u|] == '.' && StartsWith(q[|u| + 1..], v) {
      assert q[..|w|] == q[..|u|] + [q[|u|]] + q[|u| + 1..][..|v|];
    }
  }

  /** The "10" and "127" look-ahead. */
  lemma LoopbackAhead(n: nat, ns: seq<nat>, w: string)
    requires AllDigits(w) && |ns| >= 3
    ensures var q := DecimalString(n) + DotNumbers(ns);
      (StartsWith(q, w) && DotGroupsAhead(q[|w|..], 3)) <==> DecimalString(n) == w && ns[0] < 1000 && ns[1] < 1000
  {
    LeadingNumberAhead(n, w, ns, 3);
    DotNumbersAhead(ns, 3);
    FirstTwoBelow(ns);
  }

  /** Two dot groups ahead: the first number has at most three digits. */
  lemma TwoGroupsAhead(ns: seq<nat>)
    requires |ns| >= 2
    ensures DotGroupsAhead(DotNumbers(ns), 2) <==> ns[0] < 1000
  {
    DotNumbersAhead(ns, 2);
    assert (forall i :: 0 <= i < 1 ==> ns[i] < 1000) <==> ns[0] < 1000;
  }

  lemma FirstTwoBelow(ns: seq<nat>)
    requires |ns| >= 2
    ensures (forall i :: 0 <= i < 2 ==> ns[i] < 1000) <==> ns[0] < 1000 && ns[1] < 1000
  {
  }

  lemma DropDot(q: string, k: nat, x: string)
    requires k < |q| && q[k..] == ['.'] + x
    ensures q[k + 1..] == x
  {
    assert q[k + 1..] == q[k..][1..];
  }

  lemma SuffixSlices(q: string, k: nat, x: string)
    requires k <= |q| && q[k..] == x
    ensures |x| >= 2 ==> q[k..k + 2] == x[..2] && q[k + 2..] == x[2..]
  {
    if |x| >= 2 {
      assert q[k..k + 2] == q[k..][..2];
      assert q[k + 2..] == q[k..][2..];
    }
  }

  /** What follows the first number and its dot. */
  lemma AfterLeadingNumber(w: string, ns: seq<nat>)
    requires |ns| >= 1
    ensures |w + DotNumbers(ns)| > |w| + 1
    ensures (w + DotNumbers(ns))[|w| + 1..] == DecimalString(ns[0]) + DotNumbers(ns[1..])
  {
    var q := w + DotNumbers(ns);
    DotNumbersCons(ns);
    assert q[|w|..] == DotNumbers(ns);
    DropDot(q, |w|, DecimalString(ns[0]) + DotNumbers(ns[1..]));
  }

  /** The "169.254" and "192.168" look-ahead. */
  lemma PairAhead(n: nat, ns: seq<nat>, u: string, v: string)
    requires AllDigits(u) && AllDigits(v) && |u| == 3 && |v| == 3 && |ns| >= 3
    ensures var q := DecimalString(n) + DotNumbers(ns);
      (StartsWith(q, u + ['.'] + v) && DotGroupsAhead(q[7..], 2)) <==>
      DecimalString(n) == u && DecimalString(ns[0]) == v && ns[1] < 1000
  {
    var q := DecimalString(n) + DotNumbers(ns);
    DotNumbersCons(ns);
    StartsWithDotted(q, u, v);
    LeadingNumber(n, u, DotNumbers(ns));
    if DecimalString(n) == u {
      AfterLeadingNumber(u, ns);
      var q' := DecimalString(ns[0]) + DotNumbers(ns[1..]);
      LeadingNumberAhead(ns[0], v, ns[1..], 2);
      TwoGroupsAhead(ns[1..]);
      assert |q| >= 7 ==> q[7..] == q'[3..];
    }
  }

  /** The second number of 172.16.0.0/12: "16" to "31". */
  lemma Private172Number(w: string)
    requires |w| == 2 && AllDigits(w)
    ensures Private172Second(w) <==> Canonical(w) && 16 <= DecimalValue(w) <= 31
  {
    DecimalValue2(w);
  }

  lemma TwoDigitString(n: nat)
    requires 10 <= n < 100
    ensures |DecimalString(n)| == 2
  {
    var s := DecimalString(n);
    DecimalRoundTrip(n);
    DecimalUpperBound(s);
    ShortCanonical(s);
    if |s| == 3 { DecimalLowerBound(s); }
  }

  /** The "172.16" to "172.31" look-ahead. */
  lemma Ahead172(n: nat, ns: seq<nat>, u: string)
    requires AllDigits(u) && |u| == 3 && |ns| >= 3
    ensures var q := DecimalString(n) + DotNumbers(ns);
      (StartsWith(q, u + ['.']) && |q| >= 6 && Private172Second(q[4..6]) && DotGroupsAhead(q[6..], 2)) <==>
      DecimalString(n) == u && 16 <= ns[0] <= 31 && ns[1] < 1000
  {
    var q := DecimalString(n) + DotNumbers(ns);
    DotNumbersCons(ns);
    assert u + ['.'] == u + ['.'] + [];
    StartsWithDotted(q, u, []);
    LeadingNumber(n, u, DotNumbers(ns));
    if DecimalString(n) == u {
      AfterLeadingNumber(u, ns);
      Second172(ns);
      SuffixSlices(q, 4, DecimalString(ns[0]) + DotNumbers(ns[1..]));
    }
  }

  /** After "172.": a number from 16 to 31 and a further group of at most three digits. */
  lemma Second172(ns: seq<nat>)
    requires |ns| >= 3
    ensures var q := DecimalString(ns[0]) + DotNumbers(ns[1..]);
      (|q| >= 2 && Private172Second(q[..2]) && DotGroupsAhead(q[2..], 2)) <==> 16 <= ns[0] <= 31 && ns[1] < 1000
  {
    var q := DecimalString(ns[0]) + DotNumbers(ns[1..]);
    TwoGroupsAhead(ns[1..]);
    if |q| >= 2 && Private172Second(q[..2]) && DotGroupsAhead(q[2..], 2) {
      var w := q[..2];
      Private172Number(w);
      LeadingNumberAhead(ns[0], w, ns[1..], 2);
      RenderingOfValue(ns[0], w);
    }
    if 16 <= ns[0] <= 31 && ns[1] < 1000 {
      var w := DecimalString(ns[0]);
      TwoDigitString(ns[0]);
      DecimalRoundTrip(ns[0]);
      Private172Number(w);
      LeadingNumberAhead(ns[0], w, ns[1..], 2);
      assert q[..2] == w;
    }
  }

  /** The dotted quads the look-aheads exclude. The look-aheads examine one to
      three digits in each group they pass over, and the last group they
      examine needs only a first digit. */
  predicate PrivateQuad(a: nat, b: nat, c: nat, d: nat) {
    ((a == 10 || a == 127) && b < 1000 && c < 1000) ||
    (((a == 169 && b == 254) || (a == 192 && b == 168)) && c < 1000) ||
    (a == 172 && 16 <= b <= 31 && c < 1000)
  }

  /** The look-aheads reject exactly the private quads. */
  lemma PrivateAheadQuad(a: nat, b: nat, c: nat, d: nat)
    ensures PrivateAhead(Quad(a, b, c, d)) <==> PrivateQuad(a, b, c, d)
  {
    PrefixValues();
    RenderingOfValue(a, "10");
    RenderingOfValue(a, "127");
    RenderingOfValue(a, "169");
    RenderingOfValue(a, "192");
    RenderingOfValue(a, "172");
    RenderingOfValue(b, "254");
    RenderingOfValue(b, "168");
    LoopbackAhead(a, [b, c, d], "10");
    LoopbackAhead(a, [b, c, d], "127");
    PairAhead(a, [b, c, d], "169", "254");
    PairAhead(a, [b, c, d], "192", "168");
    Ahead172(a, [b, c, d], "172");
  }

  /** The numbers the look-aheads spell out. */
  lemma PrefixValues()
    ensures Canonical("10") && DecimalValue("10") == 10
    ensures Canonical("127") && DecimalValue("127") == 127
    ensures Canonical("169") && DecimalValue("169") == 169 && Canonical("254") && DecimalValue("254") == 254
    ensures Canonical("192") && DecimalValue("192") == 192 && Canonical("168") && DecimalValue("168") == 168
    ensures Canonical("172") && DecimalValue("172") == 172
    ensures "169" + ['.'] + "254" == "169.254" && "192" + ['.'] + "168" == "192.168" && "172" + ['.'] == "172."
  {
    ThreeDigitValue("127", 127);
    ThreeDigitValue("169", 169);
    ThreeDigitValue("254", 254);
    ThreeDigitValue("192", 192);
    ThreeDigitValue("168", 168);
    ThreeDigitValue("172", 172);
    DecimalValue2("10");
  }

  lemma ThreeDigitValue(w: string, n: nat)
    requires |w| == 3 && AllDigits(w) && w[0] != '0'
    requires 100 * DigitValue(w[0]) + 10 * DigitValue(w[1]) + DigitValue(w[2]) == n
    ensures Canonical(w) && DecimalValue(w) == n
  {
    DecimalValue3(w);
  }
}
