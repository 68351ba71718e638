# Wox URL plugin, modelled in Dafny

The Wox URL plugin (`Plugins/Wox.Plugin.Url/Main.cs`) takes the launcher's search text. If the text looks like a web address, the plugin offers two results: one opens the address over https and one opens it over http.

The model covers four parts of `Main.cs`:

- **`IsURL`.** The text is lower-cased and matched against `urlPattern`, a regular expression derived from dperini's URL pattern. A match succeeds only when its value is the whole text. A fixed list of "localhost" forms is also accepted.
- **`GetResult`.** The text is parsed with `UriBuilder`. A "host:port" text gets "http://" in front first. The scheme is then forced to https or http, with the default port. Finally the result is scored, with bonuses for a leading "http", for an exact round trip through the builder, and for a favourite top-level domain (`favTlds`).
- **`Query`.** For a URL, the plugin returns the https result and then the http result. For other text it returns an empty list.
- **`favTlds`.** The list of favourite top-level domains.

The modules:

- **`Text`** (`text.dfy`) models the string operations the plugin uses:
  - ASCII lower-casing;
  - the length of a text in UTF-16 code units;
  - `StartsWith` and `EndsWith`;
  - `String.Split` and `Enumerable.Last`;
  - decimal renderings;
  - `int.TryParse`.
- **`UrlRegex`** (`url_regex.dfy`) describes `urlPattern` one fragment at a time. Each fragment is a predicate with the same alternatives and repetition counts as the regex.
  - The negative look-aheads are predicates over the remaining input (`HostPart(h, r)`).
  - `MatchValue` is `Match(...).Value`. Because `$` also matches before a final line feed, that value can be the text without its last "\n".
- **`PatternFacts`** (`pattern_facts.dfy`) restates the host-name and IP-address fragments in terms of characters, `Split` pieces and octet values.
- **`AddressFacts`** (`address_facts.dfy`) evaluates the IP-address fragment and the look-aheads on a dotted quad `a.b.c.d`.
- **`MatchFacts`** (`match_facts.dfy`) reduces the whole pattern to its host fragment. It first settles what the protocol and user-information groups consume, then what may follow the host: nothing, a port, a path, or a port and a path.
- **`UrlPlugin`** (`url_plugin.dfy`) contains:
  - `FavTlds`;
  - `IsUrl`;
  - a `UriBuilder` class whose fields the scheme rewrite overwrites;
  - the functional specification of a result (`Candidate`);
  - the imperative `GetResult`, proved equal to `Candidate`;
  - `Query`.
- **`UrlProperties`** (`url_properties.dfy`) states what `IsUrl` accepts. One lemma covers each of these subjects: case, the empty text, localhost, dotted quads, ports, paths and top-level domains.

`UriBuilder` parsing and printing are framework code. They are parameters, collected in a `UriLibrary` value:

- `parse` is the constructor;
- `builderText` is `ToString()`;
- `uriText` is `Uri.ToString()`.

The builder's state is the four components the plugin reads or writes: scheme, host, port, and the rest.

`IsURL("")` returns true in the source. The regex cannot match the empty text, but the failed match's value is "", which equals the input. The model keeps this behaviour (`IsUrl`, `EmptyIsUrl`).

## Model

| member | source | states |
|---|---|---|
| UrlPlugin.IsUrl | Plugins/Wox.Plugin.Url/Main.cs:126-141 | the text is a URL exactly when its lower-cased form is empty, is matched in full by the pattern, or is one of the six localhost forms |
| UrlRegex.MatchValue | Plugins/Wox.Plugin.Url/Main.cs:130 | the match value equals the text exactly when the text is empty or the pattern matches all of it |
| UrlProperties.EmptyIsUrl | Plugins/Wox.Plugin.Url/Main.cs:130 | the empty search text is accepted as a URL |
| UrlProperties.IsUrlOfLower | Plugins/Wox.Plugin.Url/Main.cs:128 | acceptance does not depend on letter case: a text and its lower-case form are judged alike |
| UrlProperties.LowerKeepsNonBlank | Plugins/Wox.Plugin.Url/Main.cs:128 | lower-casing neither adds nor removes white space |
| UrlProperties.LocalhostWithPort | Plugins/Wox.Plugin.Url/Main.cs:132-134 | "localhost:", "http://localhost:" and "https://localhost:" followed by anything are accepted |
| UrlProperties.BareLocalhost | Plugins/Wox.Plugin.Url/Main.cs:128-134 | "localhost", "http://localhost" and "https://localhost" are accepted in any letter case |
| UrlProperties.LocalhostNotPattern | Plugins/Wox.Plugin.Url/Main.cs:35-39 | the pattern itself rejects "localhost", since a host name needs a top-level domain |
| UrlProperties.HostPartHasDot | Plugins/Wox.Plugin.Url/Main.cs:30-39 | every host the pattern accepts, name or address, contains a '.' |
| UrlProperties.QuadIsUrl | Plugins/Wox.Plugin.Url/Main.cs:22-32 | a dotted quad a.b.c.d is accepted exactly when 1 <= a <= 223, b and c <= 255 and 1 <= d <= 254, and it is not in 10/8, 127/8, 169.254/16, 192.168/16 or 172.16/12 |
| UrlProperties.QuadIsAddress | Plugins/Wox.Plugin.Url/Main.cs:19-40 | a dotted quad is accepted exactly when it matches the address fragment and none of the look-aheads rejects it; it never matches as a host name |
| UrlProperties.BareInputIsUrl | Plugins/Wox.Plugin.Url/Main.cs:126-138 | a text without ':', '/' and '@' is accepted exactly when it is empty, its lower-case form is a host, or its lower-case form is "localhost" |
| UrlProperties.PortInputIsUrl | Plugins/Wox.Plugin.Url/Main.cs:42 | a host, ':' and digits is accepted exactly when the host matches and there are two to five digits, or the host is "localhost" (any number of digits) |
| UrlProperties.PathInputIsUrl | Plugins/Wox.Plugin.Url/Main.cs:44 | a host, '/' and a path without '@' is accepted exactly when the host matches and the path has no white space |
| UrlProperties.ProtocolNamePathIsUrl | Plugins/Wox.Plugin.Url/Main.cs:14-45 | with every piece in lower case, a protocol word, "://", a label, '.', a top-level domain, '/' and a path without white space or '@' is accepted |
| UrlProperties.ProtocolNamePathExample | Plugins/Wox.Plugin.Url/Main.cs:126-131 | "https://a.bc/x" is accepted |
| UrlProperties.LabelAndTldIsUrl | Plugins/Wox.Plugin.Url/Main.cs:35-39 | a label, '.' and a top-level domain of two or more letters is accepted |
| UrlProperties.OneLetterTldRejected | Plugins/Wox.Plugin.Url/Main.cs:39 | a name whose last '.'-piece is a single letter is rejected |
| UrlProperties.NotAddressUnlessDigitLast | Plugins/Wox.Plugin.Url/Main.cs:30-39 | a host that does not end in a digit matches only as a host name |
| UrlProperties.OneCharTldNotHostName | Plugins/Wox.Plugin.Url/Main.cs:39 | a host name ending with '.' and one character ends with a character above U+FFFF, the only single character that is two UTF-16 code units |
| UrlProperties.SupplementaryTldIsUrl | Plugins/Wox.Plugin.Url/Main.cs:39 | a lower-case label, '.' and one top-level-domain character above U+FFFF is accepted, since `{2,}` counts its two surrogates |
| UrlProperties.SupplementaryTldExample | Plugins/Wox.Plugin.Url/Main.cs:39 | "a." followed by U+1F600 is accepted |
| UrlProperties.DigitFirstNotLocalhost | Plugins/Wox.Plugin.Url/Main.cs:132-134 | a text starting with a digit is none of the localhost forms |
| UrlProperties.BareLocalhostOnly | Plugins/Wox.Plugin.Url/Main.cs:132-134 | of the localhost forms, a text without separators can only be "localhost" |
| UrlProperties.PortLocalhostOnly | Plugins/Wox.Plugin.Url/Main.cs:132-134 | a separator-free host, ':' and digits is a localhost form exactly when the host is "localhost" |
| UrlProperties.PathNotLocalhost | Plugins/Wox.Plugin.Url/Main.cs:132-134 | a separator-free host followed by '/' is never a localhost form |
| UrlProperties.LabelDotTld | Plugins/Wox.Plugin.Url/Main.cs:35-39 | a label, '.' and a top-level domain form a host name |
| MatchFacts.BareHostIff | Plugins/Wox.Plugin.Url/Main.cs:14-45 | a text without ':', '/' and '@' matches exactly when all of it is a host |
| MatchFacts.HostWithPortIff | Plugins/Wox.Plugin.Url/Main.cs:42 | a host, ':' and digits matches exactly when the host matches and the port has two to five digits |
| MatchFacts.HostWithPathIff | Plugins/Wox.Plugin.Url/Main.cs:44 | a host, '/' and text without '@' matches exactly when the host matches and the text has no white space |
| MatchFacts.HostWithPortPathIff | Plugins/Wox.Plugin.Url/Main.cs:42-44 | a host, ':', digits, '/' and text without '@' match exactly when the host matches, the port has two to five digits and the text has no white space |
| MatchFacts.ProtocolHostIff | Plugins/Wox.Plugin.Url/Main.cs:16 | a word, "://" and a text without separators match exactly when the text is a host |
| MatchFacts.UserInfoHostIff | Plugins/Wox.Plugin.Url/Main.cs:18 | user information, '@' and a text without separators match exactly when the text is a host |
| MatchFacts.WithProtocol | Plugins/Wox.Plugin.Url/Main.cs:16 | a word and "://" in front of a text without '@' leave exactly the text to the host and what follows it |
| MatchFacts.ProtocolLength | Plugins/Wox.Plugin.Url/Main.cs:16 | in a word, "://" and more, a non-empty protocol match is the word and "://" |
| MatchFacts.NoEmptyProtocol | Plugins/Wox.Plugin.Url/Main.cs:16-44 | with an empty protocol, a word, "://" and a text without '@' cannot be matched, since "://" cannot follow a host and no '@' ends user information |
| MatchFacts.WithUserInfo | Plugins/Wox.Plugin.Url/Main.cs:18 | user information without '/' and '@', and '@', in front of a text without '@' leave exactly the text to the host and what follows it |
| MatchFacts.UserInfoEnd | Plugins/Wox.Plugin.Url/Main.cs:18 | the user information of such a text is empty or ends at its only '@' |
| MatchFacts.NoEmptyUserInfo | Plugins/Wox.Plugin.Url/Main.cs:18-44 | with empty user information, an '@' before any '/' cannot be matched |
| MatchFacts.WithoutPrefixes | Plugins/Wox.Plugin.Url/Main.cs:16-18 | when no protocol and no user information can be matched, the pattern matches exactly what the host and its suffix match |
| MatchFacts.HostAloneIff | Plugins/Wox.Plugin.Url/Main.cs:19-44 | a text without separators is a host and an empty suffix exactly when it is a host |
| MatchFacts.HostPortIff | Plugins/Wox.Plugin.Url/Main.cs:19-44 | a host, ':' and digits: the host must match and the port have two to five digits |
| MatchFacts.HostPathIff | Plugins/Wox.Plugin.Url/Main.cs:19-44 | a host, '/' and any text: the host must match and the text have no white space |
| MatchFacts.HostPortPathIff | Plugins/Wox.Plugin.Url/Main.cs:19-44 | a host, ':', digits, '/' and any text: the host must match, the port have two to five digits and the text no white space |
| MatchFacts.HostEndsAtSeparator | Plugins/Wox.Plugin.Url/Main.cs:19-44 | after the user information, the host ends exactly at the first ':', '/' or '@', and that character is not '@' |
| MatchFacts.NoColonSlash | Plugins/Wox.Plugin.Url/Main.cs:42-44 | "://" never follows a host |
| MatchFacts.AtBlocksAfterHost | Plugins/Wox.Plugin.Url/Main.cs:42-44 | an '@' with no '/' before it never follows a host |
| MatchFacts.AfterHostAt | Plugins/Wox.Plugin.Url/Main.cs:42-44 | what follows a host, when anything does, starts with ':' or '/' |
| MatchFacts.PathOnlyIff | Plugins/Wox.Plugin.Url/Main.cs:44 | '/' and a text may follow a host exactly when the text has no white space |
| MatchFacts.PortPathIff | Plugins/Wox.Plugin.Url/Main.cs:42-44 | ':', digits, '/' and a text may follow a host exactly when there are two to five digits and the text has no white space |
| MatchFacts.NoPath | Plugins/Wox.Plugin.Url/Main.cs:42-44 | without a '/', what follows a host is a port or nothing |
| MatchFacts.NoProtocol | Plugins/Wox.Plugin.Url/Main.cs:16 | the protocol is empty unless a word followed by "://" starts the text |
| MatchFacts.NoUserInfo | Plugins/Wox.Plugin.Url/Main.cs:18 | without an '@', the user information is empty |
| MatchFacts.HostEnd | Plugins/Wox.Plugin.Url/Main.cs:30-39 | a host ends at or before the first ':', '/' or '@' |
| MatchFacts.PortOnly | Plugins/Wox.Plugin.Url/Main.cs:42-44 | ':' and two to five digits may follow a host |
| PatternFacts.DashRunsIff | Plugins/Wox.Plugin.Url/Main.cs:35 | the repeated group of a label is empty, or starts with a host character and holds only host characters and dashes |
| PatternFacts.LabelIff | Plugins/Wox.Plugin.Url/Main.cs:35 | a label is host characters and dashes that begin and end with a host character |
| PatternFacts.DomainTailIff | Plugins/Wox.Plugin.Url/Main.cs:37-39 | the domain part is '.' followed by '.'-pieces that are labels and then a top-level domain of letters at least two UTF-16 code units long |
| PatternFacts.HostNameIff | Plugins/Wox.Plugin.Url/Main.cs:35-39 | a host name has at least two '.'-pieces: labels, then a top-level domain of letters at least two UTF-16 code units long |
| PatternFacts.HostNameShape | Plugins/Wox.Plugin.Url/Main.cs:35-39 | a host name has at least three characters, ends in a letter and holds only host characters, dashes and dots |
| PatternFacts.FirstOctetValue | Plugins/Wox.Plugin.Url/Main.cs:30 | the first octet is a decimal without a leading zero, worth 1 to 223 |
| PatternFacts.MidOctetValue | Plugins/Wox.Plugin.Url/Main.cs:31 | a middle octet is one to three digits worth at most 255, and a leading zero is allowed only in one or two digits |
| PatternFacts.LastOctetValue | Plugins/Wox.Plugin.Url/Main.cs:32 | the last octet is a decimal without a leading zero, worth 1 to 254 |
| PatternFacts.IpAddressShape | Plugins/Wox.Plugin.Url/Main.cs:30-32 | an address has at least seven characters, all digits and dots, and ends in a digit |
| PatternFacts.HostPartShape | Plugins/Wox.Plugin.Url/Main.cs:22-39 | a host has at least three characters and no ':', '/' or '@' |
| AddressFacts.QuadAddress | Plugins/Wox.Plugin.Url/Main.cs:30-32 | a dotted quad matches the address fragment exactly when 1 <= a <= 223, b and c <= 255 and 1 <= d <= 254 |
| AddressFacts.PrivateAheadQuad | Plugins/Wox.Plugin.Url/Main.cs:22-24 | the look-aheads reject a dotted quad exactly when it starts with 10 or 127 and its second and third numbers are below 1000, or starts with 169.254, 192.168 or 172.16 to 172.31 and its third number is below 1000 (`\d{1,3}` reads at most three digits of each group it passes over) |
| AddressFacts.OctetGroupsNumbers | Plugins/Wox.Plugin.Url/Main.cs:31-32 | n middle groups and a last group match exactly when the middle numbers are at most 255 and the last is 1 to 254 |
| AddressFacts.FirstOctetNumber | Plugins/Wox.Plugin.Url/Main.cs:30 | the rendering of n is a first octet exactly when 1 <= n <= 223 |
| AddressFacts.MidOctetNumber | Plugins/Wox.Plugin.Url/Main.cs:31 | the rendering of n is a middle octet exactly when n <= 255 |
| AddressFacts.LastOctetNumber | Plugins/Wox.Plugin.Url/Main.cs:32 | the rendering of n is a last octet exactly when 1 <= n <= 254 |
| AddressFacts.DotNumbersAhead | Plugins/Wox.Plugin.Url/Main.cs:22-24 | the look-ahead `(\.\d{1,3}){n}` holds of rendered numbers exactly when the first n - 1 of them are below 1000 |
| AddressFacts.LoopbackAhead | Plugins/Wox.Plugin.Url/Main.cs:22 | the first look-ahead sees its prefix and three short groups exactly when the leading number is the prefix and the next two are below 1000 |
| AddressFacts.PairAhead | Plugins/Wox.Plugin.Url/Main.cs:23 | the second look-ahead sees its two-number prefix exactly when the leading numbers are that prefix and the third is below 1000 |
| AddressFacts.Ahead172 | Plugins/Wox.Plugin.Url/Main.cs:24 | the third look-ahead holds exactly for 172, a second number from 16 to 31 and a third below 1000 |
| AddressFacts.Private172Number | Plugins/Wox.Plugin.Url/Main.cs:24 | `1[6-9]\|2\d\|3[0-1]` is exactly the canonical two-digit numbers 16 to 31 |
| Text.ToLowerIdempotent | Plugins/Wox.Plugin.Url/Main.cs:128 | lower-casing twice is the same as lower-casing once |
| Text.ToLowerConcat | Plugins/Wox.Plugin.Url/Main.cs:128 | lower-casing distributes over concatenation |
| Text.Utf16Length | Plugins/Wox.Plugin.Url/Main.cs:39 | a text is at least as many UTF-16 code units as characters and at most twice as many |
| Text.Utf16AtLeastTwo | Plugins/Wox.Plugin.Url/Main.cs:39 | a text is at least two UTF-16 code units exactly when it has two characters or one character above U+FFFF |
| Text.JoinSplit | Plugins/Wox.Plugin.Url/Main.cs:56 | joining the pieces of `Split` with the separator gives back the text |
| Text.SplitJoin | Plugins/Wox.Plugin.Url/Main.cs:56 | splitting a join of separator-free pieces gives back the pieces |
| Text.SplitPiecesHaveNoSep | Plugins/Wox.Plugin.Url/Main.cs:56 | no piece of `Split` holds the separator |
| Text.SinglePiece | Plugins/Wox.Plugin.Url/Main.cs:56 | `Split` gives one piece exactly when the separator does not occur |
| Text.SplitLast | Plugins/Wox.Plugin.Url/Main.cs:105 | the last piece of `Split` is the suffix after the last separator, or all of the text |
| Text.TryParseInt32 | Plugins/Wox.Plugin.Url/Main.cs:56 | a successful parse has a value in the 32-bit range and the text holds a digit |
| Text.IsNumberWhite | Plugins/Wox.Plugin.Url/Main.cs:56 | defines the white space `int.TryParse` allows around a number: U+0009 to U+000D and U+0020 |
| Text.TrimNumberWhite | Plugins/Wox.Plugin.Url/Main.cs:56 | removes that white space from both ends; the result is no longer and neither starts nor ends with it |
| Text.TrimTrailingNul | Plugins/Wox.Plugin.Url/Main.cs:56 | removes the U+0000 characters at the end; the result is a prefix that does not end in U+0000 and everything removed is U+0000 |
| Text.IsRegexWhiteSpace | Plugins/Wox.Plugin.Url/Main.cs:44 | defines .NET's `\s` (`[\f\n\r\t\v\x85\p{Z}]`), whose complement `\S` the path of line 44 and the user information of line 18 use |
| Text.TrailingNulIgnored | Plugins/Wox.Plugin.Url/Main.cs:56 | a U+0000 at the end of the text never changes the outcome of the parse, as .NET's number parser tolerates trailing NULs |
| Text.WhiteAfterNulRejected | Plugins/Wox.Plugin.Url/Main.cs:56 | white space after a U+0000 makes the parse fail: the tolerated NULs must come last |
| Text.ParseDecimal | Plugins/Wox.Plugin.Url/Main.cs:56 | the decimal rendering of any number up to 2147483647 parses back to that number |
| Text.DigitsParse | Plugins/Wox.Plugin.Url/Main.cs:56 | a non-empty string of decimal digits parses to its value exactly when that value fits in 32 bits, and fails otherwise |
| Text.DecimalRoundTrip | Plugins/Wox.Plugin.Url/Main.cs:30-32 | the rendering of n is canonical and its value is n |
| Text.CanonicalRoundTrip | Plugins/Wox.Plugin.Url/Main.cs:30-32 | a canonical digit string is the rendering of its value |
| UrlPlugin.ShorthandIff | Plugins/Wox.Plugin.Url/Main.cs:56 | a text with a single ':' is a "host:port" shorthand exactly when a '.' precedes the ':' and a 32-bit integer follows it |
| UrlPlugin.ShorthandShape | Plugins/Wox.Plugin.Url/Main.cs:56 | a shorthand has exactly one ':', a '.' before it and a 32-bit integer after it |
| UrlPlugin.ShorthandPort | Plugins/Wox.Plugin.Url/Main.cs:55-57 | a dotted host with a port number is built with "http://" in front |
| UrlPlugin.ShorthandPortNul | Plugins/Wox.Plugin.Url/Main.cs:55-57 | a dotted host with a port number followed by U+0000 is still a "host:port" shorthand and is built with "http://" in front |
| UrlPlugin.UriBuilder.constructor | Plugins/Wox.Plugin.Url/Main.cs:55 | the builder's components are the parse of its text |
| UrlPlugin.UriBuilder.ToString | Plugins/Wox.Plugin.Url/Main.cs:102 | defines `parsed.ToString()` as the URI library's text of the builder's current components |
| UrlPlugin.UriBuilder.UriString | Plugins/Wox.Plugin.Url/Main.cs:78-79 | defines `parsed.Uri.ToString()` as the URI library's text of the builder's current components |
| UrlPlugin.ForceScheme | Plugins/Wox.Plugin.Url/Main.cs:60-74 | the rewrite keeps the host and the rest; "http" becomes "https" on 443 when https is asked for, "https" becomes "http" on 80 when not, and an empty scheme counts as "http"; nothing else changes |
| UrlPlugin.ForceSchemeIdempotent | Plugins/Wox.Plugin.Url/Main.cs:60-74 | rewriting a rewritten address switches nothing and changes nothing |
| UrlPlugin.OneSwitch | Plugins/Wox.Plugin.Url/Main.cs:60-74 | at most one of the two rewrites of an address switches its scheme, and one does exactly when the scheme is http or https |
| UrlPlugin.ScoreOf | Plugins/Wox.Plugin.Url/Main.cs:51-106 | a score is between 2 and 41 |
| UrlPlugin.ScoreShowsSwitch | Plugins/Wox.Plugin.Url/Main.cs:51-106 | a score leaves remainder 2 modulo 5 exactly when the scheme was switched, and 1 otherwise |
| UrlPlugin.ScoreOfInjective | Plugins/Wox.Plugin.Url/Main.cs:51-106 | the score determines which bonuses were given |
| UrlPlugin.FavouriteTldIff | Plugins/Wox.Plugin.Url/Main.cs:105 | the bonus is given exactly when the host is one of `com net org gov edu co io`, or ends with '.' and one of them |
| UrlPlugin.SameHostBothCandidates | Plugins/Wox.Plugin.Url/Main.cs:63-72 | the https and http rewrites of one text have the same host |
| UrlPlugin.Candidate | Plugins/Wox.Plugin.Url/Main.cs:76-106 | a result has a score from 2 to 41, the URL icon, and as subtitle the secure or insecure prefix followed by the title |
| UrlPlugin.CandidatesOneSwitched | Plugins/Wox.Plugin.Url/Main.cs:60-74 | of a text's two results at most one has a switched scheme, and one does exactly when the address is http or https (an empty scheme counting as http); the score shows which |
| UrlPlugin.GetResult | Plugins/Wox.Plugin.Url/Main.cs:49-109 | the builder-mutating procedure computes exactly the specified result |
| UrlPlugin.Query | Plugins/Wox.Plugin.Url/Main.cs:111-124 | for a URL, the https result and then the http result (with their subtitle prefixes); for other text, no result; every score is positive |
| UrlRegex.UrlPattern | Plugins/Wox.Plugin.Url/Main.cs:14-45 | defines the whole pattern: an optional protocol, optional user information, a host (address or name), an optional port and an optional path, anchored at both ends |
| UrlRegex.Protocol | Plugins/Wox.Plugin.Url/Main.cs:16 | defines the protocol group: empty, or word characters followed by "://" |
| UrlRegex.UserInfo | Plugins/Wox.Plugin.Url/Main.cs:18 | defines the user-information group: empty, or non-white-space, an optional ':' and password, and '@' |
| UrlRegex.PrivateAhead | Plugins/Wox.Plugin.Url/Main.cs:22-24 | defines the three negative look-aheads over the rest of the input |
| UrlRegex.FirstOctet | Plugins/Wox.Plugin.Url/Main.cs:30 | defines the first octet's alternatives |
| UrlRegex.MidOctet | Plugins/Wox.Plugin.Url/Main.cs:31 | defines a middle octet's alternatives |
| UrlRegex.LastOctet | Plugins/Wox.Plugin.Url/Main.cs:32 | defines the last octet's alternatives |
| UrlRegex.IpAddress | Plugins/Wox.Plugin.Url/Main.cs:30-32 | defines the address: a first octet, two dotted middle octets and a dotted last octet |
| UrlRegex.Label | Plugins/Wox.Plugin.Url/Main.cs:35 | defines a label: repeated host characters each followed by dashes, then host characters |
| UrlRegex.DomainTail | Plugins/Wox.Plugin.Url/Main.cs:37-39 | defines the dotted labels and the top-level domain after the first label |
| UrlRegex.Tld | Plugins/Wox.Plugin.Url/Main.cs:39 | defines the top-level domain: '.' and letters at least two UTF-16 code units long |
| UrlRegex.HostName | Plugins/Wox.Plugin.Url/Main.cs:35-39 | defines a host name: a label and a domain tail |
| UrlRegex.HostPart | Plugins/Wox.Plugin.Url/Main.cs:19-40 | defines the host group: an address the look-aheads allow, or a host name |
| UrlRegex.Port | Plugins/Wox.Plugin.Url/Main.cs:42 | defines the optional port: empty, or ':' and two to five digits |
| UrlRegex.Path | Plugins/Wox.Plugin.Url/Main.cs:44 | defines the optional path: empty, or '/' and non-white-space |
| UrlRegex.IsWordChar | Plugins/Wox.Plugin.Url/Main.cs:16 | defines `\w` as an ASCII letter, an ASCII digit or '_' |
| UrlRegex.IsHostChar | Plugins/Wox.Plugin.Url/Main.cs:35-37 | defines the host class `[a-z\u00a1-\uffff0-9]` under IgnoreCase: an ASCII letter of either case, an ASCII digit, or any character from U+00A1 up |
| UrlRegex.IsTldChar | Plugins/Wox.Plugin.Url/Main.cs:39 | defines the top-level-domain class `[a-z\u00a1-\uffff]` under IgnoreCase: the host class without the digits |
| UrlRegex.OptPassword | Plugins/Wox.Plugin.Url/Main.cs:18 | defines the optional password `(?::\S*)?`: empty, or ':' and non-white-space |
| UrlRegex.DotGroupsAhead | Plugins/Wox.Plugin.Url/Main.cs:22-24 | defines `(?:\.\d{1,3}){n}` matched at the start of the remaining input, whose rest the look-ahead does not examine |
| UrlRegex.Private172Second | Plugins/Wox.Plugin.Url/Main.cs:24 | defines the alternatives `1[6-9]`, `2\d` and `3[0-1]` for the second number of the 172.16/12 block |
| UrlRegex.OctetGroups | Plugins/Wox.Plugin.Url/Main.cs:31-32 | defines the octets after the first: n dotted middle octets, then a dotted last octet |
| UrlRegex.DashRuns | Plugins/Wox.Plugin.Url/Main.cs:35-37 | defines `(?:[c]-*)*`: host characters each followed by any number of dashes |
| UrlPlugin.FavTlds | Plugins/Wox.Plugin.Url/Main.cs:11 | defines the seven favourite top-level domains |
| UrlPlugin.LocalhostForm | Plugins/Wox.Plugin.Url/Main.cs:132-134 | defines the six localhost forms, compared ordinally |
| UrlPlugin.SecurePrefix | Plugins/Wox.Plugin.Url/Main.cs:79 | defines the subtitle prefix of the https result |
| UrlPlugin.InsecurePrefix | Plugins/Wox.Plugin.Url/Main.cs:79 | defines the subtitle prefix of the http result |
| UrlPlugin.IconPath | Plugins/Wox.Plugin.Url/Main.cs:80 | defines the icon of both results |
| UrlPlugin.Shorthand | Plugins/Wox.Plugin.Url/Main.cs:56 | defines the "host:port" test: two ':'-pieces, a '.' in the first, a 32-bit integer in the second |
| UrlPlugin.BuilderInput | Plugins/Wox.Plugin.Url/Main.cs:55-57 | defines the text given to the builder: with "http://" in front for a shorthand, the text itself otherwise |
| UrlPlugin.EffectiveScheme | Plugins/Wox.Plugin.Url/Main.cs:60-61 | defines the scheme after an empty one is replaced by "http" |
| UrlPlugin.IsFavouriteTld | Plugins/Wox.Plugin.Url/Main.cs:105 | defines the bonus test: the last '.'-piece of the host is a favourite top-level domain |
| Text.ToLower | Plugins/Wox.Plugin.Url/Main.cs:128 | defines lower-casing, character by character |
| Text.StartsWith | Plugins/Wox.Plugin.Url/Main.cs:99 | defines an ordinal prefix test |
| Text.Split | Plugins/Wox.Plugin.Url/Main.cs:56 | defines `String.Split` on one separator, keeping empty pieces |
| Text.Last | Plugins/Wox.Plugin.Url/Main.cs:105 | defines `Enumerable.Last` on a non-empty list |

## Left out

- `UriBuilder` and `Uri` are framework code. Their parsing and printing are the parameters of `UriLibrary`.
- The exceptions they throw on malformed text are left out, including the one from `parsed.Uri` on line 59. `GetResult` is therefore modelled as total.
- The unused `uri` locals (lines 59 and 114) are left out. They only matter through the exceptions above.
- The result's `Action` (lines 82-94) is left out. It starts a process and shows a translated message, which is I/O.
- `Init` and the translated title and description are plugin-host plumbing with no logic about URLs.
- The Program plugin and the rest of the repository are not part of this model.
- Text.ToLower: lower-casing is ASCII only, where `ToLower()` on line 128 uses the current culture's Unicode casing; a non-ASCII capital such as 'É' stays as it is here.
- `Text.StartsWith` is ordinal. In the source, `StartsWith("http")` (line 99) and the three `StartsWith` calls of `UrlPlugin.LocalhostForm` (lines 132-134) are culture-sensitive, so a character the culture ignores, such as a soft hyphen inside "localhost:", still passes there and fails here. The `==` comparisons on lines 132-134 are ordinal in both.
- UrlPlugin.LocalhostForm: its three `StartsWith` tests (lines 132-134) are ordinal through `Text.StartsWith`, where the source's are culture-sensitive; the three `==` tests are ordinal in both.
- In the regex, `\w` and `\d` are ASCII only; .NET's Unicode categories are left out.
- `\s` is the exact .NET class.
- .NET matches UTF-16 code units and Dafny characters are Unicode scalar values. `UrlRegex.Tld` counts `{2,}` in code units (`Text.Utf16Length`), so one character above U+FFFF is a top-level domain, as in .NET. Under `*` and `+` a character above U+FFFF is two surrogates, both in `\u00a1-\uffff`, so it behaves as one character of the class. An unpaired surrogate cannot occur in a Dafny string and is left out.
- `int.TryParse` follows the invariant culture with `NumberStyles.Integer`: optional white space, an optional sign, decimal digits, optional white space, then any number of U+0000 characters (which .NET's parser tolerates at the very end). Culture-specific signs and other number styles are left out.
- Null strings are left out: the search text is always a string.
- UrlProperties.LabelAndTldIsUrl: its requires asks for an already lower-case label and top-level domain. Upper-case input is covered by `IsUrlOfLower`.
- UrlProperties.PathInputIsUrl: it covers only paths without '@'. With an '@', the pattern may read the text before it as user information.
- UrlProperties.ProtocolNamePathIsUrl: it asks for each piece to be already in lower case and a path without '@'. Upper-case input is covered by `IsUrlOfLower`, and an '@' is the case `MatchFacts.WithProtocol` leaves out.
- MatchFacts.WithProtocol: it covers only text after "://" without '@'. With an '@', the word and "://" may also be read as user information.
- MatchFacts.WithUserInfo: it covers only user information without '/' and '@', followed by text without '@'. The regex's `\S+` also allows '/' and further '@' characters there.
- MatchFacts.HostWithPortPathIff: it requires at least one port digit. With none, the text holds ":/", which `MatchFacts.NoColonSlash` shows never follows a host; the pattern may still read it as a protocol.
- MatchFacts.ProtocolHostIff: it covers a host without ':', '/' and '@'; a port or a path after the protocol is covered by `MatchFacts.WithProtocol` with `MatchFacts.HostPortIff`, `MatchFacts.HostPathIff` or `MatchFacts.HostPortPathIff`.
- MatchFacts.UserInfoHostIff: it covers a host without ':', '/' and '@'; a port or path after the user information is covered by `MatchFacts.WithUserInfo` with the same lemmas.
