/** The URL plugin: `IsUrl` decides whether the search text is a web address,
    `GetResult` turns it into a result that opens it over https or http, and
    `Query` offers both results for a URL and nothing otherwise. */
module UrlPlugin {
  import opened Text
  import opened UrlRegex

  /** Top-level domains that earn a result a bonus. */
  const FavTlds: seq<string> := ["com", "net", "org", "gov", "edu", "co", "io"]

  const SecurePrefix: string := "Securely open URL: "
  const InsecurePrefix: string := "Open URL [insecure]: "
  const IconPath: string := "Images/url.png"

  // ---------------------------------------------------------------------------
  // IsURL

  /** The host names that are accepted with or without a port although the
      pattern has no rule for them. */
  predicate LocalhostForm(r: string) {
    r == "localhost" || StartsWith(r, "localhost:") ||
    r == "http://localhost" || StartsWith(r, "http://localhost:") ||
    r == "https://localhost" || StartsWith(r, "https://localhost:")
  }

  /** The search text, lower-cased, is matched in full by `urlPattern` (which
      holds of the empty text, whose failed match has the empty value) or is
      one of the localhost forms. */
  function IsUrl(raw: string): (b: bool)
    ensures b <==> ToLower(raw) == [] || UrlPattern(ToLower(raw)) || LocalhostForm(ToLower(raw))
  {
    var r := ToLower(raw);
    if MatchValue(r) == r then true
    else if LocalhostForm(r) then true
    else false
  }

  // ---------------------------------------------------------------------------
  // The URI builder

  /** The components of a URI that the plugin reads or writes; `rest` stands for
      everything else (user information, path, query and fragment). */
  datatype UriParts = UriParts(scheme: string, host: string, port: int, rest: string)

  /** The framework's URI parsing and printing, which the model does not
      describe: `parse` is the `UriBuilder(string)` constructor, `builderText`
      is `UriBuilder.ToString()` and `uriText` is `UriBuilder.Uri.ToString()`. */
  datatype UriLibrary = UriLibrary(
    parse: string -> UriParts,
    builderText: UriParts -> string,
    uriText: UriParts -> string)

  /** `System.UriBuilder`: the components are fields that setters overwrite. */
  class UriBuilder {
    var Scheme: string
    var Host: string
    var Port: int
    var Rest: string
    const lib: UriLibrary

    constructor (lib: UriLibrary, text: string)
      ensures Parts() == lib.parse(text) && this.lib == lib
    {
      var p := lib.parse(text);
      Scheme, Host, Port, Rest := p.scheme, p.host, p.port, p.rest;
      this.lib := lib;
    }

    function Parts(): UriParts
      reads this
    {
      UriParts(Scheme, Host, Port, Rest)
    }

    function ToString(): string
      reads this
    {
      lib.builderText(Parts())
    }

    function UriString(): string
      reads this
    {
      lib.uriText(Parts())
    }
  }

  // ---------------------------------------------------------------------------
  // Specification of GetResult

  datatype Result = Result(title: string, subTitle: string, icoPath: string, score: int)

  /** "host:port" without a scheme: exactly one ':', a '.' before it and a
      32-bit integer after it. */
  predicate Shorthand(raw: string) {
    var parts := Split(raw, ':');
    |parts| == 2 && '.' in parts[0] && TryParseInt32(parts[1]).Some?
  }

  /** The text the builder is finally made from. */
  function BuilderInput(raw: string): string {
    if Shorthand(raw) then "http://" + raw else raw
  }

  function SchemeFor(https: bool): string { if https then "https" else "http" }

  function DefaultPort(https: bool): int { if https then 443 else 80 }

  /** An empty scheme is read as "http". */
  function EffectiveScheme(scheme: string): string { if scheme == "" then "http" else scheme }

  /** The components after the scheme is forced, and whether it was switched. */
  datatype Forced = Forced(parts: UriParts, switched: bool)

  /** The scheme rewrite: an "http" address becomes "https" on port 443 when
      https is asked for, an "https" address becomes "http" on port 80 when it is
      not, and any other scheme stays. */
  function ForceScheme(p: UriParts, https: bool): (f: Forced)
    ensures f.parts.host == p.host && f.parts.rest == p.rest
    ensures f.switched <==> EffectiveScheme(p.scheme) == SchemeFor(!https)
    ensures f.switched ==> f.parts.scheme == SchemeFor(https) && f.parts.port == DefaultPort(https)
    ensures !f.switched ==> f.parts.scheme == EffectiveScheme(p.scheme) && f.parts.port == p.port
  {
    var q := p.(scheme := EffectiveScheme(p.scheme));
    if q.scheme == "http" && https then Forced(q.(scheme := "https", port := 443), true)
    else if q.scheme == "https" && !https then Forced(q.(scheme := "http", port := 80), true)
    else Forced(q, false)
  }

  /** The last '.'-piece of the host is one of the favourite top-level domains. */
  predicate IsFavouriteTld(host: string) {
    Last(Split(host, '.')) in FavTlds
  }

  /** The score: 2 when the scheme was switched and 6 otherwise, plus 10 when
      the search text starts with "http", 20 when it is exactly the builder's
      text and 5 for a favourite top-level domain. */
  function ScoreOf(switched: bool, http: bool, exact: bool, favourite: bool): (n: int)
    ensures 2 <= n <= 41
  {
    (if switched then 2 else 6) + (if http then 10 else 0) + (if exact then 20 else 0) +
    (if favourite then 5 else 0)
  }

  /** The result for `raw` opened over https (or http). */
  function Candidate(raw: string, https: bool, lib: UriLibrary): (r: Result)
    ensures 2 <= r.score <= 41
    ensures r.icoPath == IconPath
    ensures r.subTitle == (if https then SecurePrefix else InsecurePrefix) + r.title
  {
    var f := ForceScheme(lib.parse(BuilderInput(raw)), https);
    var title := lib.uriText(f.parts);
    Result(title, (if https then SecurePrefix else InsecurePrefix) + title, IconPath,
           ScoreOf(f.switched, StartsWith(raw, "http"), raw == lib.builderText(f.parts),
                   IsFavouriteTld(f.parts.host)))
  }

  // ---------------------------------------------------------------------------
  // Properties of the specification

  /** The "host:port" test holds of a text with one ':' exactly when a '.'
      precedes the ':' and an int follows it. */
  lemma ShorthandIff(h: string, d: string)
    requires ':' !in h && ':' !in d
    ensures Shorthand(h + [':'] + d) <==> '.' in h && TryParseInt32(d).Some?
  {
    SplitConcat(h, ':', d);
    assert Split(d, ':') == [d];
  }

  /** Conversely, a text passing the test has exactly one ':', at `i`. */
  lemma ShorthandShape(raw: string) returns (i: nat)
    requires Shorthand(raw)
    ensures i < |raw| && raw[i] == ':' && ':' !in raw[..i] && ':' !in raw[i + 1..]
    ensures '.' in raw[..i] && TryParseInt32(raw[i + 1..]).Some?
  {
    SinglePiece(raw, ':');
    i := IndexOf(raw, ':');
    SinglePiece(raw[i + 1..], ':');
  }

  /** A host with a '.' and a port number is built with "http://" in front. */
  lemma ShorthandPort(h: string, n: nat)
    requires ':' !in h && '.' in h && n <= Int32Max
    ensures BuilderInput(h + [':'] + DecimalString(n)) == "http://" + h + [':'] + DecimalString(n)
  {
    var d := DecimalString(n);
    assert forall i :: 0 <= i < |d| ==> IsAsciiDigit(d[i]);
    ParseDecimal(n);
    ShorthandIff(h, d);
  }

  /** A port followed by U+0000 still makes a "host:port" shorthand, since
      `int.TryParse` ignores the trailing U+0000. */
  lemma ShorthandPortNul(h: string, n: nat)
    requires ':' !in h && '.' in h && n <= Int32Max
    ensures var raw := h + [':'] + DecimalString(n) + ['\0'];
      BuilderInput(raw) == "http://" + raw
  {
    var d := DecimalString(n);
    assert forall i :: 0 <= i < |d| ==> IsAsciiDigit(d[i]);
    assert ':' !in d + ['\0'];
    ParseDecimal(n);
    TrailingNulIgnored(d);
    ShorthandIff(h, d + ['\0']);
    assert h + [':'] + d + ['\0'] == h + [':'] + (d + ['\0']);
  }

  /** Rewriting an already rewritten address changes nothing more. */
  lemma ForceSchemeIdempotent(p: UriParts, https: bool)
    ensures var q := ForceScheme(p, https).parts; ForceScheme(q, https) == Forced(q, false)
  {
  }

  /** Of the two rewrites of one address, at most one switches the scheme, and
      exactly one does when the address is "http" or "https". */
  lemma OneSwitch(p: UriParts)
    ensures !(ForceScheme(p, true).switched && ForceScheme(p, false).switched)
    ensures EffectiveScheme(p.scheme) in {"http", "https"} <==>
      ForceScheme(p, true).switched || ForceScheme(p, false).switched
  {
  }

  /** The score shows whether the scheme was switched: it is 2 more than a
      multiple of 5 exactly when it was, and 1 more otherwise. */
  lemma ScoreShowsSwitch(switched: bool, http: bool, exact: bool, favourite: bool)
    ensures ScoreOf(switched, http, exact, favourite) % 5 == (if switched then 2 else 1)
  {
  }

  /** Different bonuses give different scores. */
  lemma ScoreOfInjective(a: bool, b: bool, c: bool, d: bool, a': bool, b': bool, c': bool, d': bool)
    requires ScoreOf(a, b, c, d) == ScoreOf(a', b', c', d')
    ensures a == a' && b == b' && c == c' && d == d'
  {
  }

  /** The favourite-domain bonus is given exactly for a host that is one of the
      favourite domains or ends with '.' and one of them. */
  lemma FavouriteTldIff(host: string)
    ensures IsFavouriteTld(host) <==>
      exists t :: t in FavTlds && (host == t || EndsWith(host, ['.'] + t))
  {
    var k := SplitLast(host, '.');
    SplitPiecesHaveNoSep(host, '.');
    assert '.' !in host[k..];
    if IsFavouriteTld(host) {
      LastPieceIsSuffix(host, k);
    }
    forall t | t in FavTlds && (host == t || EndsWith(host, ['.'] + t))
      ensures IsFavouriteTld(host)
    {
      LastPieceAfterDot(host, t, k);
    }
  }

  /** The last '.'-piece, starting at `k`, is all of `host` or follows a '.'. */
  lemma LastPieceIsSuffix(host: string, k: nat)
    requires k <= |host| && (k == 0 || host[k - 1] == '.') && Last(Split(host, '.')) == host[k..]
    ensures var last := Last(Split(host, '.')); host == last || EndsWith(host, ['.'] + last)
  {
    if k > 0 {
      assert host[k - 1..] == ['.'] + host[k..];
    }
  }

  /** When `host` is `t` or ends with '.' and `t`, and `t` has no '.', a
      '.'-free suffix of `host` that is all of it or follows a '.' is `t`. */
  lemma LastPieceAfterDot(host: string, t: string, k: nat)
    requires '.' !in t && (host == t || EndsWith(host, ['.'] + t))
    requires k <= |host| && (k == 0 || host[k - 1] == '.') && '.' !in host[k..]
    ensures host[k..] == t
  {
    var start := |host| - |t|;
    assert forall x :: k <= x < |host| ==> host[x] == host[k..][x - k];
    assert forall x :: start <= x < |host| ==> host[x] == t[x - start];
    assert host != t ==> host[start - 1] == (['.'] + t)[0];
    assert k == start;
  }

  /** The two results for one search text have the same favourite-domain
      bonus, since the scheme rewrite keeps the host. */
  lemma SameHostBothCandidates(raw: string, lib: UriLibrary)
    ensures ForceScheme(lib.parse(BuilderInput(raw)), true).parts.host ==
      ForceScheme(lib.parse(BuilderInput(raw)), false).parts.host
  {
  }

  /** Of the two results for one search text, at most one has a switched
      scheme, and one does exactly when the address is "http" or "https"
      (an empty scheme counting as "http"); the score shows which. */
  lemma CandidatesOneSwitched(raw: string, lib: UriLibrary)
    ensures var s, i := Candidate(raw, true, lib).score, Candidate(raw, false, lib).score;
      !(s % 5 == 2 && i % 5 == 2) &&
      (s % 5 == 2 || i % 5 == 2 <==> EffectiveScheme(lib.parse(BuilderInput(raw)).scheme) in {"http", "https"})
  {
    var p := lib.parse(BuilderInput(raw));
    OneSwitch(p);
    var f, g := ForceScheme(p, true), ForceScheme(p, false);
    ScoreShowsSwitch(f.switched, StartsWith(raw, "http"), raw == lib.builderText(f.parts), IsFavouriteTld(f.parts.host));
    ScoreShowsSwitch(g.switched, StartsWith(raw, "http"), raw == lib.builderText(g.parts), IsFavouriteTld(g.parts.host));
  }

  // ---------------------------------------------------------------------------
  // GetResult and Query

  method GetResult(raw: string, https: bool, lib: UriLibrary) returns (r: Result)
    ensures r == Candidate(raw, https, lib)
  {
    var score := 2;
    var parsed := new UriBuilder(lib, raw);
    if Shorthand(raw) {
      parsed := new UriBuilder(lib, "http://" + raw);
    }
    ghost var f := ForceScheme(parsed.Parts(), https);
    if parsed.Scheme == "" {
      parsed.Scheme := "http";
    }
    if parsed.Scheme == "http" && https {
      parsed.Scheme := "https";
      parsed.Port := 443;
    } else if parsed.Scheme == "https" && !https {
      parsed.Scheme := "http";
      parsed.Port := 80;
    } else {
      score := 6;
    }
    assert parsed.Parts() == f.parts && score == (if f.switched then 2 else 6);
    var title := parsed.UriString();
    r := Result(title, (if https then SecurePrefix else InsecurePrefix) + title, IconPath, score);
    if StartsWith(raw, "http") {
      r := r.(score := r.score + 10);
    }
    if raw == parsed.ToString() {
      r := r.(score := r.score + 20);
    }
    if Last(Split(parsed.Host, '.')) in FavTlds {
      r := r.(score := r.score + 5);
    }
  }

  /** Both results for a URL, the https one first; none for other text. */
  method Query(search: string, lib: UriLibrary) returns (results: seq<Result>)
    ensures !IsUrl(search) ==> results == []
    ensures IsUrl(search) ==> results == [Candidate(search, true, lib), Candidate(search, false, lib)]
    ensures IsUrl(search) ==> StartsWith(results[0].subTitle, SecurePrefix) && StartsWith(results[1].subTitle, InsecurePrefix)
    ensures forall i :: 0 <= i < |results| ==> results[i].score > 0
  {
    if IsUrl(search) {
      var secure := GetResult(search, true, lib);
      var insecure := GetResult(search, false, lib);
      results := [secure, insecure];
    } else {
      results := [];
    }
  }
}
