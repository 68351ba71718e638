/** Character classes and the string operations of the .NET base library that the
    URL plugin relies on: lower-casing, prefix tests, splitting on a character and
    parsing a decimal integer. */
module Text {

  datatype Option<T> = None | Some(value: T)

  const Int32Min: int := -0x8000_0000
  const Int32Max: int := 0x7fff_ffff

  predicate IsAsciiDigit(c: char) { '0' <= c <= '9' }

  predicate IsAsciiUpper(c: char) { 'A' <= c <= 'Z' }

  predicate IsAsciiLetter(c: char) { 'a' <= c <= 'z' || IsAsciiUpper(c) }

  predicate AllDigits(s: string) { forall i :: 0 <= i < |s| ==> IsAsciiDigit(s[i]) }

  /** The regular-expression class `\s` of .NET: `[\f\n\r\t\v\x85\p{Z}]`. */
  predicate IsRegexWhiteSpace(c: char) {
    c == ' ' || c == '\t' || c == '\n' || c == '\U{0B}' || c == '\U{0C}' || c == '\r'
    || c == '\U{85}' || c == '\U{A0}' || c == '\U{1680}' || ('\U{2000}' <= c <= '\U{200A}')
    || c == '\U{2028}' || c == '\U{2029}' || c == '\U{202F}' || c == '\U{205F}' || c == '\U{3000}'
  }

  /** No character of `s` is in `\s`. */
  predicate NonBlank(s: string) { forall i :: 0 <= i < |s| ==> !IsRegexWhiteSpace(s[i]) }

  // ---------------------------------------------------------------------------
  // UTF-16

  /** A character above U+FFFF, which a .NET string holds as two surrogates. */
  predicate IsSupplementary(c: char) { c as int > 0xFFFF }

  /** The length of `s` as a .NET string: the number of its UTF-16 code units. */
  function Utf16Length(s: string): (n: nat)
    ensures |s| <= n <= 2 * |s|
  {
    if s == [] then 0 else (if IsSupplementary(s[0]) then 2 else 1) + Utf16Length(s[1..])
  }

  /** Two or more code units are two or more characters, or one character above U+FFFF. */
  lemma Utf16AtLeastTwo(s: string)
    ensures Utf16Length(s) >= 2 <==> |s| >= 2 || (|s| == 1 && IsSupplementary(s[0]))
  {
    if |s| == 1 {
      assert s[1..] == [];
    }
  }

  // ---------------------------------------------------------------------------
  // Lower-casing

  function LowerChar(c: char): char {
    if IsAsciiUpper(c) then (c as int + 32) as char else c
  }

  /** `String.ToLower`, restricted to the ASCII letters. */
  function ToLower(s: string): string {
    seq(|s|, i requires 0 <= i < |s| => LowerChar(s[i]))
  }

  lemma ToLowerIdempotent(s: string)
    ensures ToLower(ToLower(s)) == ToLower(s)
  {
    var t := ToLower(s);
    assert forall i :: 0 <= i < |t| ==> LowerChar(t[i]) == t[i];
  }

  lemma ToLowerConcat(a: string, b: string)
    ensures ToLower(a + b) == ToLower(a) + ToLower(b)
  {
    var l, r := ToLower(a + b), ToLower(a) + ToLower(b);
    assert |l| == |r|;
    forall i | 0 <= i < |l| ensures l[i] == r[i] {
      if i < |a| { assert (a + b)[i] == a[i]; } else { assert (a + b)[i] == b[i - |a|]; }
    }
  }

  /** A string without upper-case ASCII letters is its own lower case. */
  lemma ToLowerUnchanged(s: string)
    requires forall i :: 0 <= i < |s| ==> !IsAsciiUpper(s[i])
    ensures ToLower(s) == s
  {
  }

  // ---------------------------------------------------------------------------
  // Prefixes and searching

  /** Ordinal `String.StartsWith`. */
  predicate StartsWith(s: string, prefix: string) {
    |prefix| <= |s| && s[..|prefix|] == prefix
  }

  predicate EndsWith(s: string, suffix: string) {
    |suffix| <= |s| && s[|s| - |suffix|..] == suffix
  }

  /** The position of the first `c` in `s`. */
  function IndexOf(s: string, c: char): (i: nat)
    requires c in s
    ensures i < |s| && s[i] == c && c !in s[..i]
  {
    if s[0] == c then 0 else
      assert c in s[1..] by { var k :| 0 <= k < |s| && s[k] == c; assert s[1..][k - 1] == c; }
      var j := IndexOf(s[1..], c);
      assert s[..j + 1] == [s[0]] + s[1..][..j];
      j + 1
  }

  lemma IndexOfUnique(s: string, c: char, i: nat)
    requires i < |s| && s[i] == c && c !in s[..i]
    ensures c in s && IndexOf(s, c) == i
  {
    assert s[i] in s;
    var j := IndexOf(s, c);
  }

  // ---------------------------------------------------------------------------
  // Split and Join

  /** `String.Split(sep)`: the pieces between the occurrences of `sep`, empty
      pieces included, so there is always at least one piece. */
  function Split(s: string, sep: char): (parts: seq<string>)
    ensures |parts| >= 1
    decreases |s|
  {
    if sep in s then
      var i := IndexOf(s, sep);
      [s[..i]] + Split(s[i + 1..], sep)
    else [s]
  }

  /** No piece contains the separator. */
  lemma {:induction false} SplitPiecesHaveNoSep(s: string, sep: char)
    ensures forall k :: 0 <= k < |Split(s, sep)| ==> sep !in Split(s, sep)[k]
    decreases |s|
  {
    if sep in s {
      var i := IndexOf(s, sep);
      SplitPiecesHaveNoSep(s[i + 1..], sep);
      var q := Split(s[i + 1..], sep);
      assert Split(s, sep) == [s[..i]] + q;
      forall k | 1 <= k < |Split(s, sep)| ensures sep !in Split(s, sep)[k] { assert Split(s, sep)[k] == q[k - 1]; }
    }
  }

  /** There is a single piece exactly when the separator does not occur. */
  lemma SinglePiece(s: string, sep: char)
    ensures |Split(s, sep)| == 1 <==> sep !in s
  {
    if sep in s {
      var i := IndexOf(s, sep);
      assert |Split(s, sep)| == 1 + |Split(s[i + 1..], sep)|;
    }
  }

  /** The inverse of `Split`: the pieces glued back together with `sep`. */
  function Join(parts: seq<string>, sep: char): string
    requires |parts| >= 1
  {
    if |parts| == 1 then parts[0] else parts[0] + [sep] + Join(parts[1..], sep)
  }

  function Last(parts: seq<string>): string
    requires |parts| >= 1
  {
    parts[|parts| - 1]
  }

  lemma {:induction false} JoinSplit(s: string, sep: char)
    ensures Join(Split(s, sep), sep) == s
    decreases |s|
  {
    if sep in s {
      var i := IndexOf(s, sep);
      var rest := Split(s[i + 1..], sep);
      var parts := [s[..i]] + rest;
      assert |parts| > 1 && parts[0] == s[..i] && parts[1..] == rest;
      calc {
        Join(Split(s, sep), sep);
        Join(parts, sep);
        s[..i] + [sep] + Join(rest, sep);
        { JoinSplit(s[i + 1..], sep); }
        s[..i] + [sep] + s[i + 1..];
        s;
      }
    } else {
      assert Split(s, sep) == [s];
    }
  }

  /** Splitting at the first separator. */
  lemma SplitConcat(x: string, sep: char, y: string)
    requires sep !in x
    ensures Split(x + [sep] + y, sep) == [x] + Split(y, sep)
  {
    var s := x + [sep] + y;
    assert s[..|x|] == x;
    IndexOfUnique(s, sep, |x|);
    assert s[|x| + 1..] == y;
  }

  lemma {:induction false} SplitJoin(parts: seq<string>, sep: char)
    requires |parts| >= 1
    requires forall k :: 0 <= k < |parts| ==> sep !in parts[k]
    ensures Split(Join(parts, sep), sep) == parts
  {
    if |parts| > 1 {
      var rest := parts[1..];
      assert forall k :: 0 <= k < |rest| ==> rest[k] == parts[k + 1];
      SplitJoin(rest, sep);
      SplitConcat(parts[0], sep, Join(rest, sep));
      assert [parts[0]] + rest == parts;
    } else {
      SinglePiece(parts[0], sep);
    }
  }

  lemma LastCons(a: string, q: seq<string>)
    requires |q| >= 1
    ensures Last([a] + q) == Last(q)
  {
  }

  /** The last piece is the suffix after the last separator (or all of `s`). */
  lemma {:induction false} SplitLast(s: string, sep: char) returns (k: nat)
    ensures k <= |s| && (k == 0 || s[k - 1] == sep) && Last(Split(s, sep)) == s[k..]
    decreases |s|
  {
    if sep in s {
      var i := IndexOf(s, sep);
      var rest := s[i + 1..];
      var k' := SplitLast(rest, sep);
      var q := Split(rest, sep);
      assert Split(s, sep) == [s[..i]] + q;
      LastCons(s[..i], q);
      k := i + 1 + k';
      assert rest[k'..] == s[k..];
      assert k' > 0 ==> s[k - 1] == rest[k' - 1];
    } else {
      k := 0;
    }
  }

  // ---------------------------------------------------------------------------
  // Decimal numbers

  function DigitValue(c: char): nat
    requires IsAsciiDigit(c)
  {
    c as int - '0' as int
  }

  function DigitChar(d: nat): char
    requires d < 10
  {
    ('0' as int + d) as char
  }

  /** The value of a string of decimal digits (the empty string is 0). */
  function DecimalValue(s: string): nat
    requires AllDigits(s)
  {
    if |s| == 0 then 0 else DecimalValue(s[..|s| - 1]) * 10 + DigitValue(s[|s| - 1])
  }

  /** The canonical decimal rendering of `n`: no leading zero. */
  function DecimalString(n: nat): (s: string)
    ensures |s| >= 1 && AllDigits(s)
  {
    if n < 10 then [DigitChar(n)] else DecimalString(n / 10) + [DigitChar(n % 10)]
  }

  /** A digit string as `DecimalString` writes it: non-empty, no leading zero. */
  predicate Canonical(s: string) {
    |s| >= 1 && AllDigits(s) && (|s| > 1 ==> s[0] != '0')
  }

  lemma {:induction false} DecimalRoundTrip(n: nat)
    ensures Canonical(DecimalString(n)) && DecimalValue(DecimalString(n)) == n
  {
    var s := DecimalString(n);
    if n >= 10 {
      DecimalRoundTrip(n / 10);
      var t := DecimalString(n / 10);
      assert s[..|s| - 1] == t;
      assert s[0] == t[0];
    }
  }

  lemma {:induction false} CanonicalRoundTrip(s: string)
    requires Canonical(s)
    ensures DecimalString(DecimalValue(s)) == s
    decreases |s|
  {
    if |s| > 1 {
      var t := s[..|s| - 1];
      assert t[0] == s[0];
      CanonicalRoundTrip(t);
      DecimalLowerBound(t);
      assert s == t + [s[|s| - 1]];
    }
  }

  function Pow10(k: nat): nat { if k == 0 then 1 else 10 * Pow10(k - 1) }

  /** A digit string without a leading zero is worth at least 10^(length-1). */
  lemma {:induction false} DecimalLowerBound(s: string)
    requires |s| >= 1 && AllDigits(s) && s[0] != '0'
    ensures DecimalValue(s) >= Pow10(|s| - 1)
    decreases |s|
  {
    if |s| > 1 {
      var t := s[..|s| - 1];
      assert t[0] == s[0];
      DecimalLowerBound(t);
    }
  }

  /** Every digit string of length n is worth less than 10^n. */
  lemma {:induction false} DecimalUpperBound(s: string)
    requires AllDigits(s)
    ensures DecimalValue(s) < Pow10(|s|)
    decreases |s|
  {
    if |s| > 0 { DecimalUpperBound(s[..|s| - 1]); }
  }

  lemma DecimalValue2(s: string)
    requires |s| == 2 && AllDigits(s)
    ensures DecimalValue(s) == 10 * DigitValue(s[0]) + DigitValue(s[1])
  {
    var t := s[..1];
    assert t[..0] == [] && t[0] == s[0];
    assert DecimalValue(t) == DigitValue(s[0]);
    assert s[..|s| - 1] == t;
  }

  lemma DecimalValue3(s: string)
    requires |s| == 3 && AllDigits(s)
    ensures DecimalValue(s) == 100 * DigitValue(s[0]) + 10 * DigitValue(s[1]) + DigitValue(s[2])
  {
    var t := s[..2];
    DecimalValue2(t);
  }

  // ---------------------------------------------------------------------------
  // int.TryParse

  /** White space that `NumberStyles.Integer` allows around a number:
      U+0009 to U+000D and U+0020. */
  predicate IsNumberWhite(c: char) { c == ' ' || '\t' <= c <= '\r' }

  function TrimNumberWhite(s: string): (t: string)
    ensures |t| <= |s|
    ensures |t| > 0 ==> !IsNumberWhite(t[0]) && !IsNumberWhite(t[|t| - 1])
    decreases |s|
  {
    if |s| > 0 && IsNumberWhite(s[0]) then TrimNumberWhite(s[1..])
    else if |s| > 0 && IsNumberWhite(s[|s| - 1]) then TrimNumberWhite(s[..|s| - 1])
    else s
  }

  function InInt32(v: int): Option<int> {
    if Int32Min <= v <= Int32Max then Some(v) else None
  }

  /** The U+0000 characters that .NET's number parser tolerates at the very end
      of its input, after any trailing white space. */
  function TrimTrailingNul(s: string): (t: string)
    ensures |t| <= |s| && t == s[..|t|]
    ensures |t| > 0 ==> t[|t| - 1] != '\0'
    ensures forall i :: |t| <= i < |s| ==> s[i] == '\0'
    decreases |s|
  {
    if |s| > 0 && s[|s| - 1] == '\0' then TrimTrailingNul(s[..|s| - 1]) else s
  }

  /** `int.TryParse(s, out _)`: optional white space, an optional sign, at least
      one decimal digit, optional white space, any number of U+0000, and a value
      that fits in 32 bits. */
  function TryParseInt32(s: string): (r: Option<int>)
    ensures r.Some? ==> Int32Min <= r.value <= Int32Max
    ensures r.Some? ==> exists i :: 0 <= i < |s| && IsAsciiDigit(s[i])
  {
    var u := TrimTrailingNul(s);
    var t := TrimNumberWhite(u);
    TrimIsInfix(u);
    assert forall c :: c in u ==> c in s;
    if |t| >= 2 && t[0] == '-' && AllDigits(t[1..]) then
      assert t[1..][0] == t[1];
      InInt32(-(DecimalValue(t[1..]) as int))
    else if |t| >= 2 && t[0] == '+' && AllDigits(t[1..]) then
      assert t[1..][0] == t[1];
      InInt32(DecimalValue(t[1..]))
    else if |t| >= 1 && AllDigits(t) then
      InInt32(DecimalValue(t))
    else None
  }

  lemma {:induction false} TrimIsInfix(s: string)
    ensures forall j :: 0 <= j < |TrimNumberWhite(s)| ==> TrimNumberWhite(s)[j] in s
    decreases |s|
  {
    if |s| > 0 && IsNumberWhite(s[0]) {
      TrimIsInfix(s[1..]);
      forall c | c in s[1..] ensures c in s { var k :| 0 <= k < |s| - 1 && s[1..][k] == c; assert s[k + 1] == c; }
    } else if |s| > 0 && IsNumberWhite(s[|s| - 1]) {
      TrimIsInfix(s[..|s| - 1]);
      forall c | c in s[..|s| - 1] ensures c in s { var k :| 0 <= k < |s| - 1 && s[..|s| - 1][k] == c; assert s[k] == c; }
    }
  }

  /** A canonical 32-bit decimal parses back to its value. */
  lemma ParseDecimal(n: nat)
    requires n <= Int32Max
    ensures TryParseInt32(DecimalString(n)) == Some(n)
  {
    var s := DecimalString(n);
    DecimalRoundTrip(n);
    DigitsParse(s);
  }

  /** A non-empty digit string parses to its value when that fits in 32 bits. */
  lemma DigitsParse(s: string)
    requires |s| >= 1 && AllDigits(s)
    ensures TryParseInt32(s) == InInt32(DecimalValue(s))
  {
    assert TrimTrailingNul(s) == s by { assert IsAsciiDigit(s[|s| - 1]); }
    assert TrimNumberWhite(s) == s by { assert IsAsciiDigit(s[0]) && IsAsciiDigit(s[|s| - 1]); }
    assert IsAsciiDigit(s[0]);
  }

  /** A U+0000 at the end never changes the outcome of a parse. */
  lemma TrailingNulIgnored(s: string)
    ensures TryParseInt32(s + ['\0']) == TryParseInt32(s)
  {
    assert (s + ['\0'])[..|s|] == s;
  }

  /** White space after a U+0000 makes the parse fail; the NULs come last. */
  lemma WhiteAfterNulRejected(s: string)
    ensures TryParseInt32(s + ['\0', ' ']).None?
  {
    var x := s + ['\0', ' '];
    assert TrimTrailingNul(x) == x;
    var j := TrimNumberWhiteKeepsNul(x, |s|);
    var t := TrimNumberWhite(x);
    assert !IsAsciiDigit(t[j]);
    if j > 0 {
      assert t[1..][j - 1] == '\0';
    }
  }

  /** Trimming white space never removes a U+0000; it ends up at `j`. */
  lemma {:induction false} TrimNumberWhiteKeepsNul(x: string, k: nat) returns (j: nat)
    requires k < |x| && x[k] == '\0'
    ensures j < |TrimNumberWhite(x)| && TrimNumberWhite(x)[j] == '\0'
    decreases |x|
  {
    if |x| > 0 && IsNumberWhite(x[0]) {
      assert x[1..][k - 1] == '\0';
      j := TrimNumberWhiteKeepsNul(x[1..], k - 1);
    } else if |x| > 0 && IsNumberWhite(x[|x| - 1]) {
      assert x[..|x| - 1][k] == '\0';
      j := TrimNumberWhiteKeepsNul(x[..|x| - 1], k);
    } else {
      j := k;
    }
  }
}
