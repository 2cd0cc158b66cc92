# Deobfuscator link-decoding core, in Dafny

This project models the link-decoding core of the Thunderbird "Deobfuscator"
extension. Email-security gateways (Microsoft Safe Links, Proofpoint URL
Defense, Mimecast, Barracuda and a dozen others) rewrite the links in a
message so that they point at the gateway. The extension recovers the real
destination. The model covers three scripts:

- **background script** (`background.js`):
  - the context-menu decoder `deobfuscateUrl`, with its Proofpoint v2/v3
    decoders and the `tryCommonParams` helper;
  - the service labeller `identifyService`;
  - the per-part counter `scanPart`.
- **message cleaner** (`message-cleaner.js`):
  - the click-time resolver, made of `isSafeLinkHost`,
    `safeDecodeURIComponent`, `looksLikeBase64`, `maybeDecodeBase64`,
    `isHttpish`, `decodePayload`, the worklist search `extractOriginalUrl`
    and the cache in `resolveOriginal`.
- **message scanner** (`message-scanner.js`):
  - the protection-domain table;
  - `isProtectedLink`;
  - the link count `scanMessage`;
  - the warning banner's text and the decision to show it.

## Supporting modules

The JavaScript built-ins the core relies on are modelled as pure functions:

- **`Options`**: `Option<T>`, where `None` stands for `null` or a thrown
  exception.
- **`Text`**:
  - ASCII lower-casing;
  - `includes` as `Contains`;
  - `trim` (with the ECMAScript white-space set);
  - `startsWith`, `endsWith`;
  - decimal rendering of a count.
- **`UriCoding`**:
  - `decodeURIComponent`, including its UTF-8 validity rules, with `None`
    for `URIError`;
  - `encodeURIComponent`.
- **`Base64`**: `atob`, as the forgiving-base64 decode of the HTML standard,
  returning a Latin-1 string. It also holds a standard and URL-safe encoder
  that serves as the partner for the round-trip properties.
- **`Urls`**:
  - a parsed URL: hostname, pathname and the already form-decoded query
    pairs;
  - `searchParams.get` as the first value of a name.
  - `new URL(...)` is a parameter `parse: string -> Option<Url>`.

The core modules are `Background`, `MessageCleaner` and `MessageScanner`.

## Model

| member | source | states |
|---|---|---|
| Background.DecodeHttp | src/background.js:52-84 | The decode-then-check step shared by both Proofpoint decoders. A result is an http(s) URL and is the percent-decoding of the input. `null` means a decoding error or a decoding without an http(s) scheme. |
| Background.DecodeProofpointV2 | src/background.js:52-70 | A result is always an http(s) URL. It is the percent-decoding of the payload after `_` becomes `/` and `-` becomes `%`. A decoding error yields `null`, never an exception. |
| Background.ProofpointV2RoundTrip | src/background.js:52-70 | For every http(s) URL, the v2 decoder inverts the v2 encoding: percent-encode, then write `/` as `_` and `%` as `-`. |
| Background.DecodeProofpointV3 | src/background.js:73-84 | A result is always an http(s) URL, and it equals the plain percent-decoding of the payload. The result is `null` exactly when the payload is malformed or its decoding lacks an http(s) scheme. |
| Background.ProofpointV3RoundTrip | src/background.js:73-84 | For every http(s) URL, the v3 decoder inverts `encodeURIComponent`. |
| Background.V3From | src/background.js:129 | Models `/\/v3\/__(.+?)__/`. The group returned belongs to the leftmost match. At that position it is the shortest group closed by `__` that contains no line terminator. `None` means there is no match at any later index. |
| Background.V3Payload | src/background.js:129-130 | A v3 payload is never empty. The path has no v3 payload exactly when the pattern matches nowhere in it. |
| Background.TryCommonParams | src/background.js:87-102 | A result is an http(s) URL. The result is `null` exactly when no parameter in the list yields one. |
| Background.TryCommonParamsAt | src/background.js:88-100 | Parameters are tried in list order. The first one whose non-empty value decodes to an http(s) URL decides. A value that is undecodable or not http(s) passes to the next name. |
| Background.TryVendorRules | src/background.js:142-232 | A result is an http(s) URL, and some rule's hostname test holds. The chain is `null` exactly when every rule yields nothing. |
| Background.TryVendorRulesAt | src/background.js:142-232 | The first rule whose test holds and whose parameters yield a URL decides. A rule that matches but yields nothing does not stop the chain. |
| Background.Deobfuscate | src/background.js:105-238 | An unparseable URL yields `null`. A non-http(s) result can only come from the Safe Links or Proofpoint stages. |
| Background.DeobfuscateUrl | src/background.js:105-108 | `deobfuscateUrl(url)` is `null` whenever the URL does not parse. |
| Background.SafeLinksPrecedence | src/background.js:111-117 | A Safe Links host with a non-empty `url` (else `u`) payload yields exactly that payload percent-decoded, with no scheme check. A malformed payload yields `null` whatever later rules would say. |
| Background.ProofpointOrder | src/background.js:119-140 | On a Proofpoint host the strategies run in the order v2, v3, `url`. Each strategy runs only when the earlier ones yield nothing. When all three fail, the vendor rules decide. |
| Background.VendorRulesDecide | src/background.js:142-234 | Off the Safe Links and Proofpoint paths, the answer is the vendor chain's answer. |
| Background.MalformedSafeLinksPayloadAborts | src/background.js:111-146 | Example: a Safe Links host that also matches the Mimecast rule, with a malformed `url` payload and a good `u` value. The result is `null` even though the Mimecast rule alone would have returned the `u` URL. |
| Background.SafeLinksDecodesTwice | src/background.js:113-115 | Example: a query value that is already form-decoded is percent-decoded a second time, so `a%20b` becomes `a b`. |
| Background.IdentifyService | src/background.js:241-260 | The label is "Unknown Protection Service" exactly when no entry's substrings occur in the lower-cased whole URL. Otherwise it is the label of the first entry, in table order, whose substrings occur. |
| Background.IdentifyServiceIgnoresCase | src/background.js:242 | A URL and its lower-case form get the same label. |
| Background.CountOccurrencesFits | src/background.js:322-326 | The case-insensitive global matches of one domain do not overlap, so the count times the domain's length is at most the body's length. |
| Background.CountOccurrencesPositive | src/background.js:322-326 | A domain adds to the counter exactly when it occurs in the body, ignoring case. |
| Background.BodyCountPositive | src/background.js:318-328 | A part's body adds to the counter exactly when some table domain occurs in it, ignoring case. |
| Background.PartsCountPositive | src/background.js:329-331 | A list of sub-parts adds to the counter exactly when one of its parts does. |
| Background.PartsCountAppend | src/background.js:329-331 | Sub-parts are scanned one after another: splitting the list splits the count. |
| UriCoding.DecodeURIComponent | src/background.js:115 | A result is never longer than its input. A non-empty input never decodes to the empty string. A string without `%` decodes to itself. |
| UriCoding.EncodeURIComponentRoundTrip | src/background.js:278-280 | Each URL the popup link carries through `encodeURIComponent` comes back unchanged through `decodeURIComponent`. |
| Base64.AtobOfEncode | src/message-cleaner.js:71 | `atob` of the standard padded encoding of some bytes returns those bytes as a Latin-1 string. |
| Text.ContainsIff | src/message-scanner.js:60 | `includes` holds exactly when the needle occurs at some index. |
| Text.TrimIdempotent | src/message-cleaner.js:89 | Trimming a trimmed candidate changes nothing. |
| Text.NatToStringRoundTrip | src/message-scanner.js:111 | Reading the rendered decimal digits back gives the count. |
| MessageCleaner.SafeLinkHostIgnoresCase | src/message-cleaner.js:21-30 | A hostname and its lower-case form are classified alike. |
| MessageCleaner.SafeLinkHostContainsNeedle | src/message-cleaner.js:21-30 | Every host that the exact-or-subdomain test accepts also contains the needle that the background decoder finds with `includes`. |
| MessageCleaner.SafeLinkNameWithSuffix | src/message-cleaner.js:21-30 | The Safe Links domain followed by any suffix always contains the needle. It passes the exact-or-subdomain test exactly when the suffix is empty or itself ends in `.` and the domain. So `safelinks.protection.outlook.com.example.net` is rejected. |
| MessageCleaner.SafeDecodeURIComponent | src/message-cleaner.js:32-38 | Never fails. On a decoding error the input is returned unchanged. Otherwise the result is the percent-decoding with `+` read as a space. It is never longer than the input, and it is non-empty for a non-empty input. |
| MessageCleaner.SafeDecodeOfUnescaped | src/message-cleaner.js:32-38 | With no `%` in the input, the only change is `+` becoming a space. |
| MessageCleaner.SafeDecodeOfEncoded | src/message-cleaner.js:32-38 | It inverts `encodeURIComponent`. |
| MessageCleaner.HttpSchemeIsHttpish | src/message-cleaner.js:77 | Every URL that the background decoder's scheme check accepts is httpish. |
| MessageCleaner.PayloadCharsAreNotHttpish | src/message-cleaner.js:46-52 | No string drawn from the base64 character class is httpish, because every scheme needs a `:`. |
| MessageCleaner.LooksLikeBase64Shape | src/message-cleaner.js:40-54 | The URL guard never changes the answer. The test holds exactly when the trimmed value has at least 12 characters, a length that is not 1 modulo 4, and only base64 characters. |
| MessageCleaner.UrlSafeEncoding | src/message-cleaner.js:60-62 | Normalising a URL-safe encoding gives the standard encoding of the same bytes. |
| MessageCleaner.RepadEncoding | src/message-cleaner.js:63-69 | Padding an unpadded standard encoding as the code does gives the padded encoding. |
| MessageCleaner.LooksLikeBase64OfEncoding | src/message-cleaner.js:40-54 | The URL-safe encoding of at least 9 bytes, padded or not, passes the shape test. |
| MessageCleaner.MaybeDecodeBase64OfEncoding | src/message-cleaner.js:56-75 | Round trip: for at least 9 bytes, the decoder recovers the bytes (as Latin-1) from their URL-safe encoding, padded or not. |
| MessageCleaner.PresentAll | src/message-cleaner.js:83-87 | When every candidate is truthy, `filter(Boolean)` keeps them all, in order. |
| MessageCleaner.PresentAppend | src/message-cleaner.js:83-87 | The filter works entry by entry: filtering a concatenation gives the concatenation of the filtered parts. |
| MessageCleaner.PresentKeepsTruthy | src/message-cleaner.js:83-87 | For any list, each truthy entry is kept. It sits at the position given by the number of entries kept before it, so order is preserved. |
| MessageCleaner.PresentDropsFalsy | src/message-cleaner.js:83-87 | An absent or empty entry is dropped: it adds nothing to what the entries before it keep. |
| MessageCleaner.FirstHttpish | src/message-cleaner.js:88-94 | The result is `null` exactly when no candidate trims to an httpish string. A result is httpish and trimmed. |
| MessageCleaner.FirstHttpishAt | src/message-cleaner.js:88-94 | The first candidate in order that trims to an httpish string decides. |
| MessageCleaner.TryCandidates | src/message-cleaner.js:83-94 | A result is httpish, trimmed and non-empty. |
| MessageCleaner.TryCandidatesNone | src/message-cleaner.js:83-94 | When none of the raw, URI-decoded and base64-decoded candidates trims to an httpish string, the result is `null`. |
| MessageCleaner.TryCandidatesFirst | src/message-cleaner.js:83-94 | An httpish raw value wins over both of its decodings. |
| MessageCleaner.TryCandidatesSecond | src/message-cleaner.js:83-94 | When the raw value is not httpish, an httpish URI-decoding wins over the base64 decoding. |
| MessageCleaner.TryCandidatesThird | src/message-cleaner.js:83-94 | When neither of the first two candidates is httpish, an httpish base64 decoding is returned. |
| MessageCleaner.DecodePayload | src/message-cleaner.js:79-95 | An absent or empty payload gives `null`. A result is httpish, trimmed and non-empty. |
| MessageCleaner.DecodePayloadOfUrl | src/message-cleaner.js:79-95 | A payload that is already a URL comes back trimmed. |
| MessageCleaner.DecodePayloadOfEncoded | src/message-cleaner.js:79-95 | A percent-encoded URL comes back as the URL, through the second candidate. |
| MessageCleaner.DecodePayloadOfBase64 | src/message-cleaner.js:79-95 | The URL-safe base64 encoding of a URL, padded or not and of at least 9 bytes, comes back as that URL through the third candidate. |
| MessageCleaner.SafeLinkOf | src/message-cleaner.js:120-129 | A candidate takes part in the payload step exactly when it parses and its hostname passes the Safe Links test. |
| MessageCleaner.Inspect | src/message-cleaner.js:111-136 | Relates the two decoded variants, the Safe Links test and the `url`-else-`u` payload of one candidate. For a Safe Links candidate, the decoded original is exactly `decodePayload` of its payload. A candidate that is not a Safe Links URL has neither a payload nor an original. |
| MessageCleaner.Iterate | src/message-cleaner.js:104-141 | One round of the loop. A candidate that is empty or already seen is skipped, leaving `seen` unchanged. A fresh one is added to `seen` and either returns its decoded original or continues. The rest of the queue stays at the front. |
| MessageCleaner.Run | src/message-cleaner.js:104-144 | Every processed candidate is non-empty, unseen before and processed once. A found URL is the decoded original of the last candidate processed. |
| MessageCleaner.RunNotFound | src/message-cleaner.js:104-144 | When nothing is found, no processed Safe Links candidate had a payload that decoded to a URL. |
| MessageCleaner.ExtractOriginalUrl | src/message-cleaner.js:97-145 | An empty href gives nothing. A found URL is httpish, trimmed and non-empty, and it is the decoded payload of some Safe Links candidate. |
| MessageCleaner.ExtractDirect | src/message-cleaner.js:120-136 | An href that parses to a Safe Links URL, with a payload that `decodePayload` turns into a URL, yields that URL on the first round. |
| MessageCleaner.RunFuelMonotone | src/message-cleaner.js:104-144 | A search that finishes within its round budget gives the same outcome, and visits the same candidates, under any larger budget. |
| MessageCleaner.ExtractFuelMonotone | src/message-cleaner.js:97-145 | The answer does not depend on the round budget once that budget suffices. |
| MessageCleaner.OnlySafeLinksQueuePayloads | src/message-cleaner.js:111-129 | A candidate that does not parse to a Safe Links URL only queues its decoded variants. |
| MessageCleaner.UndecodablePayloadRequeued | src/message-cleaner.js:131-141 | A non-empty payload that decodes to no URL is queued for another round instead of being returned. |
| MessageCleaner.SearchLoop | src/message-cleaner.js:101-144 | The imperative queue loop computes the same outcome as the recursive search. |
| MessageCleaner.ExtractOriginalUrlLoop | src/message-cleaner.js:97-145 | The loop version of `extractOriginalUrl` agrees with the functional one, and what it finds is httpish and trimmed. |
| MessageCleaner.ResolveOriginal | src/message-cleaner.js:147-168 | No element or no href gives `null`. A cached value is returned as is, and the element is not changed. Otherwise an extracted URL that differs from the href is returned and written to the cache. In every other case the result is `null` and the element is not changed. |
| MessageCleaner.CachedWithoutRecomputation | src/message-cleaner.js:156-158 | A cached value is returned whatever the extractor would say, and the element is left alone. |
| MessageCleaner.ResolveIdempotent | src/message-cleaner.js:147-168 | Resolving again gives the same answer and leaves the element as the first call left it. |
| MessageCleaner.CacheStaysHttpish | src/message-cleaner.js:160-166 | Resolving keeps an absent or httpish cache absent or httpish: the only value the code writes is an extracted URL. |
| MessageScanner.IsProtectedLink | src/message-scanner.js:57-64 | A URL that does not parse is never protected. |
| MessageScanner.ProtectedLinkAt | src/message-scanner.js:57-64 | An occurrence of any table entry anywhere in the lower-cased hostname makes the link protected. |
| MessageScanner.ProtectedLinkWitness | src/message-scanner.js:57-64 | A protected link parses, and some table entry occurs at a known index of its lower-cased hostname. With `ProtectedLinkAt`, this is the if-and-only-if. |
| MessageScanner.ProtectedLinkIgnoresCase | src/message-scanner.js:59 | The hostname's case does not matter: two links whose hostnames agree after lower-casing are classified alike. |
| MessageScanner.TableVouchesForVendorRules | src/message-scanner.js:13-54 | Every alternative of every vendor rule of the background decoder is a table entry. For the Mimecast conjunction, its `mimecast` conjunct is. |
| MessageScanner.DeobfuscatedIsProtected | src/message-scanner.js:13-60 | Every hostname for which the background decoder returns a URL includes a table entry. |
| MessageScanner.DeobfuscateUrlIsProtected | src/background.js:105-238 | A link that the context-menu command can decode is a link the scanner counts. |
| MessageScanner.ProtectedCount | src/message-scanner.js:67-79 | The count never exceeds the number of links. |
| MessageScanner.ProtectedCountZero | src/message-scanner.js:67-79 | The count is zero exactly when no link is protected. |
| MessageScanner.ProtectedCountFull | src/message-scanner.js:67-79 | The count equals the number of links exactly when every link is protected. |
| MessageScanner.ProtectedCountIsCardinality | src/message-scanner.js:71-75 | The count is the number of positions that hold a protected link. |
| MessageScanner.ProtectedCountAppend | src/message-scanner.js:71-75 | Counting two runs of links adds their counts. |
| MessageScanner.ScanMessage | src/message-scanner.js:67-79 | The one-pass loop returns the number of protected links. |
| MessageScanner.BannerTextShape | src/message-scanner.js:111 | The text opens with the decimal count, which reads back as the count, then " obfuscated link". The next character is `s` exactly when the count exceeds one. |
| MessageScanner.MessageBanner | src/message-scanner.js:136-149 | A banner appears exactly when some link is protected. Its text reports the number of protected positions. |

## Notes on the code

Each vendor rule's block ends in `if (result) return result;`
(`background.js:142-232`), so a rule whose hostname test holds but that
yields nothing falls through to the next rule
(`Background.TryVendorRules`, `Background.TryVendorRulesAt`).

The Safe Links stage (`background.js:114-116`) and the Proofpoint `url`
fallback (`background.js:137-139`) return `decodeURIComponent(payload)`
with no scheme check, so those two stages can return a string that is not
an http(s) URL. A malformed payload there throws, and the whole call then
returns `null` (`Background.SafeLinksPrecedence`,
`Background.MalformedSafeLinksPayloadAborts`).

The background script's scanning table (23 domains) is shorter than the
message scanner's table (40 domains). Both are modelled as written.

## Left out

- The link-shortener resolver (network probe, redirects, HTML fallback): no source for it is part of this model.
- `new URL(...)` is not modelled. It is a parameter (`Urls.Parser`), so every property holds for any parser. `searchParams` values are taken as already form-decoded.
- `toLowerCase` is modelled for ASCII only. Hostnames reach the code as ASCII (IDNA or percent-encoding), and the needles are ASCII. The model does not cover non-ASCII case mapping in `identifyService`, which lower-cases the whole URL.
- Strings are sequences of Unicode scalar values. JavaScript's lone UTF-16 surrogates, and the `URIError` that `encodeURIComponent` raises for them, cannot be represented.
- Type checks such as `typeof value !== "string"` and `!element.getAttribute` are not modelled: every input is a string, or an `Option` where `null` is possible.
- CacheStaysHttpish: a cache value already present in the message (its own `data-safelinks-original` attribute) is returned unchecked (`message-cleaner.js:156-158`), so the model does not promise that every cached value is httpish. It promises only that resolving never writes a non-httpish one.
- `resolveOriginal`: the element is assumed to have a `dataset`. The branch where a missing `dataset` skips both the cache read and the cache write is not modelled.
- MessageCleaner.ExtractOriginalUrl: the `while` loop is bounded by a round budget (`fuel`). Running out of it is reported as `OutOfFuel`, distinct from `NotFound`. The loop's termination in JavaScript rests on the finiteness of the strings that decoding can reach, which the model does not prove. `ExtractFuelMonotone` shows that a large enough budget gives the unbounded answer.
- MessageCleaner.TryCandidates: its own contract states only the found case. The `null` case and the order of the three candidates are stated by `TryCandidatesNone`, `TryCandidatesFirst`, `TryCandidatesSecond` and `TryCandidatesThird`.
- MessageScanner.IsProtectedLink: its own contract states only the parse-failure case. The if-and-only-if with "some table entry occurs in the lower-cased hostname" is split between `ProtectedLinkAt` and `ProtectedLinkWitness`.
- UriCoding.DecodeURIComponent: its own contract states length and plain-text facts. Its inverse property is `EncodeURIComponentRoundTrip`.
- The browser plumbing is not modelled: context-menu creation and click handling, `windows.create`, `openDefaultBrowser`, the runtime message listener, the message-display action label, and logging. It has no decoding content.
- The message scanner's banner DOM construction and insertion, and its `DOMContentLoaded`/`setTimeout` scheduling, are not modelled. Only the banner's text and the decision to show it are.
- The click interceptor and confirmation dialog of the message cleaner are not modelled. They are DOM event wiring around `resolveOriginal`.
- `popup.js` is not part of this model. The popup URL's encoding side is covered only through `EncodeURIComponentRoundTrip`.
