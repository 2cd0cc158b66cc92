/**
 * The content script that unwraps Microsoft Safe Links when a link is clicked
 * (src/message-cleaner.js): the Safe Links hostname test, the forgiving
 * percent- and base64-decoders, the payload decoder, the breadth-first
 * unwrapping worklist and the per-element cache on top of it.
 *
 * The worklist has no iteration cap in the script; here it runs on a `fuel`
 * budget of loop iterations, and running out is reported as `OutOfFuel`,
 * an outcome the script itself never produces.
 */
module MessageCleaner {
  import opened Options
  import opened Text
  import opened UriCoding
  import opened Base64
  import opened Urls
  import opened Background

  // ---- isSafeLinkHost ----

  const SafeLinkHost := "safelinks.protection.outlook.com"

  /** `isSafeLinkHost`: the Safe Links host itself or one of its dot-subdomains, ignoring case. */
  predicate IsSafeLinkHost(hostname: string) {
    hostname != ""
    && (Lower(hostname) == SafeLinkHost || EndsWith(Lower(hostname), "." + SafeLinkHost))
  }

  /** The test ignores case. */
  lemma SafeLinkHostIgnoresCase(hostname: string)
    ensures IsSafeLinkHost(hostname) <==> IsSafeLinkHost(Lower(hostname))
  {
    LowerIdempotent(hostname);
  }

  /** A Safe Links host in this sense also passes the background script's looser substring test. */
  lemma SafeLinkHostContainsNeedle(hostname: string)
    requires IsSafeLinkHost(hostname)
    ensures Contains(Lower(hostname), SafeLinksNeedle)
  {
    var l := Lower(hostname);
    assert SafeLinksNeedle == SafeLinkHost;
    if l == SafeLinkHost {
      assert l[0..|l|] == l;
      OccursContains(l, SafeLinkHost, 0);
    } else {
      EndsWithSuffix(l, ".", SafeLinkHost);
      OccursContains(l, SafeLinkHost, |l| - |SafeLinkHost|);
    }
  }

  /** The Safe Links name followed by `s` is a Safe Links host exactly when `s` is empty or itself ends in
      `.` and the name, although it always contains the needle: `safelinks.protection.outlook.com.example.net`
      passes the background script's substring test and fails this one. */
  lemma SafeLinkNameWithSuffix(s: string)
    ensures Contains(Lower(SafeLinkHost + s), SafeLinksNeedle)
    ensures IsSafeLinkHost(SafeLinkHost + s) <==> s == "" || EndsWith(Lower(s), "." + SafeLinkHost)
  {
    var l := Lower(SafeLinkHost + s);
    LowerOfNoUpper(SafeLinkHost);
    LowerAppend(SafeLinkHost, s);
    assert l[..|SafeLinksNeedle|] == SafeLinksNeedle;
    OccursContains(l, SafeLinksNeedle, 0);
    if s != "" {
      SuffixDecidesSafeLink(l, Lower(s));
    }
  }

  /** For `l`, the Safe Links name followed by a non-empty `t`: `l` ends in `.` and the name exactly when `t` does. */
  lemma SuffixDecidesSafeLink(l: string, t: string)
    requires l == SafeLinkHost + t && t != ""
    ensures EndsWith(l, "." + SafeLinkHost) <==> EndsWith(t, "." + SafeLinkHost)
  {
    var d := "." + SafeLinkHost;
    if |t| >= |d| {
      assert l[|l| - |d|..] == t[|t| - |d|..];
    } else if EndsWith(l, d) {
      assert l[|t| - 1] == d[0] && l[|t|] == d[1];
      if |t| < |SafeLinkHost| {
        NoDotBeforeS(|t| - 1);
      }
    }
  }

  /** No `.` in the Safe Links name is followed by `s`, so `.` and the name never overlap the name's tail. */
  lemma NoDotBeforeS(j: int)
    requires 0 <= j < |SafeLinkHost| - 1
    ensures !(SafeLinkHost[j] == '.' && SafeLinkHost[j + 1] == 's')
  {
  }

  // ---- safeDecodeURIComponent ----

  /** `safeDecodeURIComponent`: `+` read as a space, then percent-decoded; on a malformed escape, the input as given. */
  function SafeDecodeURIComponent(value: string): (r: string)
    ensures DecodeURIComponent(ReplaceChar(value, '+', ' ')).None? ==> r == value
    ensures DecodeURIComponent(ReplaceChar(value, '+', ' ')).Some? ==> Some(r) == DecodeURIComponent(ReplaceChar(value, '+', ' '))
    ensures |r| <= |value|
    ensures value != "" ==> r != ""
  {
    match DecodeURIComponent(ReplaceChar(value, '+', ' '))
    case Some(d) => d
    case None => value
  }

  /** Without escapes, the only change is `+` to space. */
  lemma SafeDecodeOfUnescaped(value: string)
    requires forall i :: 0 <= i < |value| ==> value[i] != '%'
    ensures SafeDecodeURIComponent(value) == ReplaceChar(value, '+', ' ')
  {
    var t := ReplaceChar(value, '+', ' ');
    assert forall i :: 0 <= i < |t| ==> t[i] != '%';
  }

  /** `safeDecodeURIComponent` inverts `encodeURIComponent`, which escapes every `+`. */
  lemma SafeDecodeOfEncoded(s: string)
    ensures SafeDecodeURIComponent(EncodeURIComponent(s)) == s
  {
    var e := EncodeURIComponent(s);
    EncodingChars(s);
    assert ReplaceChar(e, '+', ' ') == e;
    EncodeURIComponentRoundTrip(s);
  }

  // ---- isHttpish ----

  /** `isHttpish`: `^(https?:|mailto:)` under the `i` flag. */
  predicate IsHttpish(value: string) {
    StartsWithIgnoreCase(value, "http:") || StartsWithIgnoreCase(value, "https:")
    || StartsWithIgnoreCase(value, "mailto:")
  }

  /** Every URL the background decoder's scheme check accepts is httpish. */
  lemma HttpSchemeIsHttpish(s: string)
    requires HasHttpScheme(s)
    ensures IsHttpish(s)
  {
    if StartsWithIgnoreCase(s, "http://") {
      LowerSlice(s[..7], 0, 5);
      assert s[..7][..5] == s[..5];
    } else {
      LowerSlice(s[..8], 0, 6);
      assert s[..8][..6] == s[..6];
    }
  }

  // ---- looksLikeBase64 ----

  /** The character class `[A-Za-z0-9+/=_-]`. */
  predicate IsPayloadChar(c: char) {
    IsBase64Char(c) || c == '=' || c == '_' || c == '-'
  }

  predicate AllPayloadChars(s: string) {
    forall i :: 0 <= i < |s| ==> IsPayloadChar(s[i])
  }

  /** `looksLikeBase64`: non-empty; trimmed, not httpish, at least 12 long, length not 1 modulo 4, payload characters only. */
  predicate LooksLikeBase64(value: string) {
    value != ""
    && var t := Trim(value);
    && !IsHttpish(t)
    && |t| >= 12 && |t| % 4 != 1
    && AllPayloadChars(t)
  }

  /** No httpish string is made of payload characters: each scheme ends in `:`, which the class lacks. */
  lemma PayloadCharsAreNotHttpish(t: string)
    requires AllPayloadChars(t)
    ensures !IsHttpish(t)
  {
    NoColonNotHttpish(t);
  }

  /** So the scheme guard never changes the answer: the test is length and character class alone. */
  lemma LooksLikeBase64Shape(value: string)
    ensures LooksLikeBase64(value) <==>
      value != "" && |Trim(value)| >= 12 && |Trim(value)| % 4 != 1 && AllPayloadChars(Trim(value))
  {
    if AllPayloadChars(Trim(value)) {
      PayloadCharsAreNotHttpish(Trim(value));
    }
  }

  // ---- maybeDecodeBase64 ----

  /** The URL-safe alphabet's `-` and `_` mapped to the standard `+` and `/`. */
  function UrlToStandard(c: char): char {
    if c == '-' then '+' else if c == '_' then '/' else c
  }

  function Normalize(value: string): (r: string)
    ensures |r| == |value|
  {
    seq(|value|, i requires 0 <= i < |value| => UrlToStandard(value[i]))
  }

  /** `==` after a length of 2 modulo 4, `=` after 3. */
  function Repad(s: string): (r: string)
    ensures |s| % 4 != 1 ==> |r| % 4 == 0
  {
    if |s| % 4 == 2 then s + "==" else if |s| % 4 == 3 then s + "=" else s
  }

  /** `maybeDecodeBase64`: `atob` of the normalized, re-padded input, or nothing. */
  function MaybeDecodeBase64(value: string): (r: Option<string>)
    ensures r.Some? ==> LooksLikeBase64(value)
    ensures r.Some? ==> r == Atob(Repad(Normalize(value)))
  {
    if LooksLikeBase64(value) then Atob(Repad(Normalize(value))) else None
  }

  lemma AlphabetUrlSafe(v: nat)
    requires v < 64
    ensures UrlToStandard(AlphabetChar(v, true)) == AlphabetChar(v, false)
    ensures IsPayloadChar(AlphabetChar(v, true)) && AlphabetChar(v, true) != '+'
  {
  }

  /** `u` is written in payload characters other than `+` and normalizes, character by character, to `s`. */
  predicate Corresponds(u: string, s: string) {
    |u| == |s| && forall i :: 0 <= i < |u| ==> UrlToStandard(u[i]) == s[i] && IsPayloadChar(u[i]) && u[i] != '+'
  }

  lemma CorrespondsAppend(u1: string, s1: string, u2: string, s2: string)
    requires Corresponds(u1, s1) && Corresponds(u2, s2)
    ensures Corresponds(u1 + u2, s1 + s2)
  {
    assert forall i :: |u1| <= i < |u1 + u2| ==> (u1 + u2)[i] == u2[i - |u1|] && (s1 + s2)[i] == s2[i - |u1|];
  }

  lemma CorrespondsNormalize(u: string, s: string)
    requires Corresponds(u, s)
    ensures Normalize(u) == s && AllPayloadChars(u)
  {
  }

  lemma GroupUrlSafe(b0: Byte, b1: Byte, b2: Byte)
    ensures Corresponds(Group(b0, b1, b2, true), Group(b0, b1, b2, false))
  {
    AlphabetUrlSafe(b0 / 4);
    AlphabetUrlSafe((b0 % 4) * 16 + b1 / 16);
    AlphabetUrlSafe((b1 % 16) * 4 + b2 / 64);
    AlphabetUrlSafe(b2 % 64);
  }

  lemma ShortUrlSafe(bs: seq<Byte>, padded: bool)
    requires |bs| < 3
    ensures Corresponds(Encode(bs, true, padded), Encode(bs, false, padded))
  {
    if |bs| > 0 {
      var b0 := bs[0] as int;
      var b1 := if |bs| == 2 then bs[1] as int else 0;
      var vs := if |bs| == 1 then [b0 / 4, (b0 % 4) * 16]
                else [b0 / 4, (b0 % 4) * 16 + b1 / 16, (b1 % 16) * 4];
      var pad := if !padded then "" else if |bs| == 1 then "==" else "=";
      var u := seq(|vs|, i requires 0 <= i < |vs| => AlphabetChar(vs[i], true));
      var t := seq(|vs|, i requires 0 <= i < |vs| => AlphabetChar(vs[i], false));
      assert EncodeTail(bs, true, padded) == u + pad;
      assert EncodeTail(bs, false, padded) == t + pad;
      forall i | 0 <= i < |vs| ensures UrlToStandard(u[i]) == t[i] && IsPayloadChar(u[i]) && u[i] != '+' {
        AlphabetUrlSafe(vs[i]);
      }
      CorrespondsAppend(u, t, pad, pad);
    }
  }

  /** A URL-safe encoding normalizes to the standard one and uses only payload characters. */
  lemma {:induction false} UrlSafeEncoding(bs: seq<Byte>, padded: bool)
    ensures Corresponds(Encode(bs, true, padded), Encode(bs, false, padded))
    ensures Normalize(Encode(bs, true, padded)) == Encode(bs, false, padded)
    ensures AllPayloadChars(Encode(bs, true, padded))
    decreases |bs|
  {
    if |bs| < 3 {
      ShortUrlSafe(bs, padded);
    } else {
      GroupUrlSafe(bs[0], bs[1], bs[2]);
      UrlSafeEncoding(bs[3..], padded);
      CorrespondsAppend(Group(bs[0], bs[1], bs[2], true), Group(bs[0], bs[1], bs[2], false),
                        Encode(bs[3..], true, padded), Encode(bs[3..], false, padded));
    }
    CorrespondsNormalize(Encode(bs, true, padded), Encode(bs, false, padded));
  }

  /** Re-padding an unpadded standard encoding gives the padded one. */
  lemma RepadEncoding(bs: seq<Byte>)
    ensures Repad(Encode(bs, false, false)) == Encode(bs, false, true)
  {
    EncodePadded(bs, false);
    UnpaddedLengthMod(|bs|);
  }

  lemma UnpaddedLengthMod(n: nat)
    ensures EncodedLength(n, false) % 4 == (if n % 3 == 0 then 0 else n % 3 + 1)
    ensures Padding(n) == (if n % 3 == 1 then "==" else if n % 3 == 2 then "=" else "")
  {
  }

  /** A base64url encoding of at least nine octets passes `looksLikeBase64`. */
  lemma LooksLikeBase64OfEncoding(bs: seq<Byte>, padded: bool)
    requires |bs| >= 9
    ensures LooksLikeBase64(Encode(bs, true, padded))
  {
    var e := Encode(bs, true, padded);
    UrlSafeEncoding(bs, padded);
    PayloadCharsTrimmed(e);
    PayloadCharsAreNotHttpish(e);
    assert |e| >= 12 && |e| % 4 != 1;
  }

  /** Payload characters include no space, so a payload string is its own trim. */
  lemma PayloadCharsTrimmed(t: string)
    requires AllPayloadChars(t)
    ensures Trim(t) == t
  {
    if t != "" {
      assert IsPayloadChar(t[0]) && IsPayloadChar(t[|t| - 1]);
    }
    TrimOfTrimmed(t);
  }

  /** Normalizing and re-padding a base64url encoding gives the padded standard one. */
  lemma RepadNormalizedEncoding(bs: seq<Byte>, padded: bool)
    ensures Repad(Normalize(Encode(bs, true, padded))) == Encode(bs, false, true)
  {
    UrlSafeEncoding(bs, padded);
    if padded {
      assert Repad(Encode(bs, false, true)) == Encode(bs, false, true);
    } else {
      RepadEncoding(bs);
    }
  }

  /**
   * Any base64url encoding of at least nine octets, padded or not, is recognised
   * and decoded back to the octets as a binary string.
   */
  lemma MaybeDecodeBase64OfEncoding(bs: seq<Byte>, padded: bool)
    requires |bs| >= 9
    ensures MaybeDecodeBase64(Encode(bs, true, padded)) == Some(Latin1(bs))
  {
    LooksLikeBase64OfEncoding(bs, padded);
    RepadNormalizedEncoding(bs, padded);
    AtobOfEncode(bs);
  }

  // ---- decodePayload ----

  /** `.filter(Boolean)` over optional strings: drops the absent and the empty. */
  function Present(os: seq<Option<string>>): (r: seq<string>)
    ensures forall i :: 0 <= i < |r| ==> r[i] != ""
    ensures |r| <= |os|
  {
    if |os| == 0 then []
    else (if Truthy(os[0]) then [os[0].value] else []) + Present(os[1..])
  }

  /** With nothing absent or empty, the filter keeps every value. */
  lemma {:induction false} PresentAll(os: seq<Option<string>>)
    requires forall i :: 0 <= i < |os| ==> Truthy(os[i])
    ensures |Present(os)| == |os|
    ensures forall i :: 0 <= i < |os| ==> Some(Present(os)[i]) == os[i]
  {
    if |os| > 0 {
      PresentAll(os[1..]);
      assert Present(os) == [os[0].value] + Present(os[1..]);
    }
  }

  /** The filter works entry by entry: filtering a concatenation concatenates the filtered parts. */
  lemma {:induction false} PresentAppend(a: seq<Option<string>>, b: seq<Option<string>>)
    ensures Present(a + b) == Present(a) + Present(b)
    decreases |a|
  {
    if |a| > 0 {
      assert (a + b)[1..] == a[1..] + b;
      PresentAppend(a[1..], b);
    } else {
      assert a + b == b;
    }
  }

  /** Every truthy entry is kept, at the position given by the number of entries kept before it. */
  lemma PresentKeepsTruthy(os: seq<Option<string>>, i: nat)
    requires i < |os| && Truthy(os[i])
    ensures |Present(os[..i])| < |Present(os)|
    ensures Present(os)[|Present(os[..i])|] == os[i].value
  {
    assert os == os[..i] + [os[i]] + os[i + 1..];
    PresentAppend(os[..i] + [os[i]], os[i + 1..]);
    PresentAppend(os[..i], [os[i]]);
    assert Present([os[i]]) == [os[i].value] + Present([os[i]][1..]);
  }

  /** An absent or empty entry is dropped: it adds nothing to what the entries before it keep. */
  lemma PresentDropsFalsy(os: seq<Option<string>>, i: nat)
    requires i < |os| && !Truthy(os[i])
    ensures Present(os[..i + 1]) == Present(os[..i])
  {
    assert os[..i + 1] == os[..i] + [os[i]];
    PresentAppend(os[..i], [os[i]]);
    assert Present([os[i]]) == [] + Present([os[i]][1..]);
  }

  lemma PresentOfThree(x: string, y: string, z: string)
    requires x != "" && y != "" && z != ""
    ensures Present([Some(x), Some(y), Some(z)]) == [x, y, z]
  {
    PresentAll([Some(x), Some(y), Some(z)]);
  }

  /** The index of the first string satisfying `p`; `|cs|` when there is none. */
  function FirstIndex(p: string -> bool, cs: seq<string>): (k: nat)
    ensures k <= |cs|
    ensures k < |cs| ==> p(cs[k])
    ensures forall j :: 0 <= j < k ==> !p(cs[j])
  {
    if |cs| == 0 then 0
    else if p(cs[0]) then 0
    else
      var k := FirstIndex(p, cs[1..]);
      assert forall j :: 1 <= j < |cs| ==> cs[j] == cs[1..][j - 1];
      k + 1
  }

  /** The first index is the only one with nothing satisfying `p` before it. */
  lemma FirstIndexAt(p: string -> bool, cs: seq<string>, k: nat)
    requires k < |cs| && p(cs[k])
    requires forall j :: 0 <= j < k ==> !p(cs[j])
    ensures FirstIndex(p, cs) == k
  {
    var i := FirstIndex(p, cs);
    assert i <= k;
    assert k <= i;
  }

  /** Whether a candidate of `decodePayload` is a URL: httpish once trimmed. */
  predicate IsUrlCandidate(s: string) {
    IsHttpish(Trim(s))
  }

  /** The trimmed form of the first candidate whose trimmed form is httpish. */
  function FirstHttpish(cs: seq<string>): (r: Option<string>)
    ensures r.None? <==> forall i :: 0 <= i < |cs| ==> !IsHttpish(Trim(cs[i]))
    ensures r.Some? ==> IsHttpish(r.value) && IsTrimmed(r.value)
  {
    var k := FirstIndex(IsUrlCandidate, cs);
    if k < |cs| then TrimIsTrimmed(cs[k]); Some(Trim(cs[k])) else None
  }

  /** The first httpish candidate is the one taken. */
  lemma FirstHttpishAt(cs: seq<string>, k: nat)
    requires k < |cs| && IsHttpish(Trim(cs[k]))
    requires forall j :: 0 <= j < k ==> !IsHttpish(Trim(cs[j]))
    ensures FirstHttpish(cs) == Some(Trim(cs[k]))
  {
    FirstIndexAt(IsUrlCandidate, cs, k);
  }

  /**
   * The loop of `decodePayload` over its three candidates, in order: the raw
   * value, its percent-decoding, its base64 decoding (absent or empty ones dropped).
   */
  function TryCandidates(raw: string, decoded: string, b64: Option<string>): (r: Option<string>)
    ensures r.Some? ==> IsHttpish(r.value) && IsTrimmed(r.value) && r.value != ""
  {
    FirstHttpish(Present([Some(raw), Some(decoded), b64]))
  }

  /** Every kept value is one of the present values. */
  lemma {:induction false} PresentFrom(os: seq<Option<string>>)
    ensures forall i :: 0 <= i < |Present(os)| ==> Some(Present(os)[i]) in os
  {
    if |os| > 0 {
      PresentFrom(os[1..]);
      var h := if Truthy(os[0]) then [os[0].value] else [];
      assert Present(os) == h + Present(os[1..]);
      assert forall i :: 0 <= i < |Present(os[1..])| ==> Present(os)[|h| + i] == Present(os[1..])[i];
    }
  }

  /** With no candidate a URL once trimmed, the payload decodes to nothing. */
  lemma TryCandidatesNone(raw: string, decoded: string, b64: Option<string>)
    requires !IsHttpish(Trim(raw)) && !IsHttpish(Trim(decoded))
    requires b64.Some? ==> !IsHttpish(Trim(b64.value))
    ensures TryCandidates(raw, decoded, b64).None?
  {
    var os := [Some(raw), Some(decoded), b64];
    var cs := Present(os);
    PresentFrom(os);
    forall i | 0 <= i < |cs|
      ensures !IsHttpish(Trim(cs[i]))
    {
      assert Some(cs[i]) in os;
      assert cs[i] == raw || cs[i] == decoded || b64 == Some(cs[i]);
    }
  }

  /** The raw candidate comes first. */
  lemma TryCandidatesFirst(raw: string, decoded: string, b64: Option<string>)
    requires IsHttpish(Trim(raw))
    ensures TryCandidates(raw, decoded, b64) == Some(Trim(raw))
  {
    HttpishLength(Trim(raw));
    PresentLeading(raw, decoded, b64);
    FirstHttpishAt(Present([Some(raw), Some(decoded), b64]), 0);
  }

  /** The percent-decoded candidate is taken when the raw one is no URL. */
  lemma TryCandidatesSecond(raw: string, decoded: string, b64: Option<string>)
    requires raw != "" && !IsHttpish(Trim(raw)) && IsHttpish(Trim(decoded))
    ensures TryCandidates(raw, decoded, b64) == Some(Trim(decoded))
  {
    HttpishLength(Trim(decoded));
    PresentLeading(raw, decoded, b64);
    FirstHttpishAt(Present([Some(raw), Some(decoded), b64]), 1);
  }

  /** The filter keeps a non-empty raw value first, and a non-empty decoded value after it. */
  lemma PresentLeading(raw: string, decoded: string, b64: Option<string>)
    requires raw != ""
    ensures var cs := Present([Some(raw), Some(decoded), b64]);
      |cs| >= 1 && cs[0] == raw && (decoded != "" ==> |cs| >= 2 && cs[1] == decoded)
  {
    var os := [Some(raw), Some(decoded), b64];
    assert os[1..] == [Some(decoded), b64];
    assert Present(os) == [raw] + Present(os[1..]);
    if decoded != "" {
      assert Present(os[1..]) == [decoded] + Present(os[1..][1..]);
    }
  }

  /** The base64 candidate is taken when neither earlier one is a URL. */
  lemma TryCandidatesThird(raw: string, decoded: string, b: string)
    requires raw != "" && decoded != "" && !IsHttpish(Trim(raw)) && !IsHttpish(Trim(decoded))
    requires IsHttpish(Trim(b))
    ensures TryCandidates(raw, decoded, Some(b)) == Some(Trim(b))
  {
    HttpishLength(Trim(b));
    PresentOfThree(raw, decoded, b);
    var cs := [raw, decoded, b];
    assert forall j :: 0 <= j < 2 ==> !IsHttpish(Trim(cs[j])) by {
      assert cs[0] == raw && cs[1] == decoded;
    }
    FirstHttpishAt(cs, 2);
  }

  /** `decodePayload`: nothing for an absent or empty payload; else the first candidate that is a URL once trimmed. */
  function DecodePayload(raw: Option<string>): (r: Option<string>)
    ensures !Truthy(raw) ==> r.None?
    ensures r.Some? ==> IsHttpish(r.value) && IsTrimmed(r.value) && r.value != ""
  {
    if !Truthy(raw) then None
    else TryCandidates(raw.value, SafeDecodeURIComponent(raw.value), MaybeDecodeBase64(raw.value))
  }

  /** A payload that is itself a URL, up to surrounding spaces, is returned trimmed. */
  lemma DecodePayloadOfUrl(raw: string)
    requires IsHttpish(Trim(raw))
    ensures DecodePayload(Some(raw)) == Some(Trim(raw))
  {
    TryCandidatesFirst(raw, SafeDecodeURIComponent(raw), MaybeDecodeBase64(raw));
  }

  lemma EscapeOctetsChars(bs: seq<Byte>)
    ensures forall i :: 0 <= i < |EscapeOctets(bs)| ==> EscapeOctets(bs)[i] == '%' || IsHexDigit(EscapeOctets(bs)[i])
  {
  }

  /** `encodeURIComponent` writes only unreserved characters, `%` and hex digits. */
  lemma {:induction false} EncodingChars(s: string)
    ensures forall i :: 0 <= i < |EncodeURIComponent(s)| ==>
      var c := EncodeURIComponent(s)[i]; IsUriUnreserved(c) || c == '%' || IsHexDigit(c)
  {
    if |s| > 0 {
      var h := if IsUriUnreserved(s[0]) then [s[0]] else EscapeOctets(Utf8Encode(s[0]));
      var e, t := EncodeURIComponent(s), EncodeURIComponent(s[1..]);
      assert e == h + t;
      EscapeOctetsChars(Utf8Encode(s[0]));
      EncodingChars(s[1..]);
      assert forall i :: |h| <= i < |e| ==> e[i] == t[i - |h|];
    }
  }

  /** A string without `:` is not httpish. */
  lemma NoColonNotHttpish(t: string)
    requires forall i :: 0 <= i < |t| ==> t[i] != ':'
    ensures !IsHttpish(t)
  {
    if |t| >= 5 {
      assert Lower(t[..5])[4] != ':';
    }
    if |t| >= 6 {
      assert Lower(t[..6])[5] != ':';
    }
    if |t| >= 7 {
      assert Lower(t[..7])[6] != ':';
    }
  }

  /** A percent-encoded URL payload is decoded: its raw form has its `:` escaped. */
  lemma DecodePayloadOfEncoded(url: string)
    requires IsHttpish(Trim(url))
    ensures DecodePayload(Some(EncodeURIComponent(url))) == Some(Trim(url))
  {
    var e := EncodeURIComponent(url);
    HttpishLength(Trim(url));
    EncodedNotHttpish(url);
    SafeDecodeOfEncoded(url);
    TryCandidatesSecond(e, url, MaybeDecodeBase64(e));
  }

  /** An httpish string is at least as long as the shortest scheme, `http:`. */
  lemma HttpishLength(s: string)
    requires IsHttpish(s)
    ensures |s| >= 5
  {
  }

  /** A non-empty component encoding is itself no URL, even trimmed. */
  lemma EncodedNotHttpish(url: string)
    requires url != ""
    ensures var e := EncodeURIComponent(url); e != "" && !IsHttpish(Trim(e))
  {
    var e := EncodeURIComponent(url);
    EncodingChars(url);
    assert IsTrimmed(e);
    TrimOfTrimmed(e);
    NoColonNotHttpish(e);
    assert e == (if IsUriUnreserved(url[0]) then [url[0]] else EscapeOctets(Utf8Encode(url[0])))
                + EncodeURIComponent(url[1..]);
  }

  /** A base64url payload of a URL is decoded, because neither earlier candidate is httpish. */
  lemma DecodePayloadOfBase64(bs: seq<Byte>, padded: bool)
    requires |bs| >= 9
    requires IsHttpish(Trim(Latin1(bs)))
    ensures DecodePayload(Some(Encode(bs, true, padded))) == Some(Trim(Latin1(bs)))
  {
    var e := Encode(bs, true, padded);
    MaybeDecodeBase64OfEncoding(bs, padded);
    UnescapedEncoding(bs, padded);
    LooksLikeBase64OfEncoding(bs, padded);
    assert e != "";
    TryCandidatesThird(e, e, Latin1(bs));
  }

  /** A base64url encoding has no `%` and no `+`, so percent-decoding leaves it as it is. */
  lemma UnescapedEncoding(bs: seq<Byte>, padded: bool)
    ensures SafeDecodeURIComponent(Encode(bs, true, padded)) == Encode(bs, true, padded)
  {
    var e := Encode(bs, true, padded);
    UrlSafeEncoding(bs, padded);
    assert forall i :: 0 <= i < |e| ==> e[i] != '%' && e[i] != '+';
    SafeDecodeOfUnescaped(e);
    assert ReplaceChar(e, '+', ' ') == e;
  }

  // ---- extractOriginalUrl ----

  /** The parsed form of a candidate that is a Safe Links URL. */
  function SafeLinkOf(parse: Parser, s: string): (r: Option<Url>)
    ensures r.Some? ==> parse(s) == r && IsSafeLinkHost(r.value.hostname)
    ensures r.None? ==> parse(s).None? || !IsSafeLinkHost(parse(s).value.hostname)
  {
    match parse(s)
    case Some(u) => if IsSafeLinkHost(u.hostname) then Some(u) else None
    case None => None
  }

  /**
   * What one iteration of the loop computes from a candidate: its two decoded
   * variants, whether it parses to a Safe Links URL, that URL's `url`/`u`
   * payload, and the payload decoded.
   */
  datatype Inspection = Inspection(
    decodedUri: string, decodedB64: Option<string>,
    safeLink: bool, payload: Option<string>, original: Option<string>)

  function Inspect(parse: Parser, current: string): (r: Inspection)
    ensures r.decodedUri == SafeDecodeURIComponent(current) && r.decodedB64 == MaybeDecodeBase64(current)
    ensures r.safeLink <==> SafeLinkOf(parse, current).Some?
    ensures r.safeLink ==> r.payload == SafeLinksPayload(SafeLinkOf(parse, current).value)
    ensures r.safeLink ==> r.original == DecodePayload(r.payload)
    ensures !r.safeLink ==> r.payload.None? && r.original.None?
    ensures r.original.Some? ==> IsHttpish(r.original.value) && IsTrimmed(r.original.value) && r.original.value != ""
  {
    match SafeLinkOf(parse, current)
    case Some(u) =>
      var payload := SafeLinksPayload(u);
      Inspection(SafeDecodeURIComponent(current), MaybeDecodeBase64(current), true, payload, DecodePayload(payload))
    case None =>
      Inspection(SafeDecodeURIComponent(current), MaybeDecodeBase64(current), false, None, None)
  }

  /** The decoded forms of `current` queued for later: new, non-empty and not yet processed. */
  function Variants(current: string, info: Inspection, seen: set<string>): (r: seq<string>)
    ensures forall i :: 0 <= i < |r| ==> r[i] != "" && r[i] !in seen
  {
    var d, b := info.decodedUri, info.decodedB64;
    (if d != "" && d != current && d !in seen then [d] else [])
    + (if Truthy(b) && b.value !in seen then [b.value] else [])
  }

  /** The payload queued after a Safe Links candidate whose payload decoded to nothing. */
  function Requeued(info: Inspection, seen: set<string>): seq<string> {
    if info.safeLink && Truthy(info.payload) && info.payload.value !in seen then [info.payload.value] else []
  }

  /** The state after an iteration of the loop, or the URL it returns. */
  datatype Step = Continue(queue: seq<string>, seen: set<string>) | Done(url: string)

  /** Whether the head of the queue is processed rather than skipped. */
  predicate Fresh(queue: seq<string>, seen: set<string>)
    requires |queue| > 0
  {
    queue[0] != "" && queue[0] !in seen
  }

  /** A candidate inspector, as `Inspect` with a fixed parser. */
  type Inspector = string -> Inspection

  /** One iteration of the `while (queue.length)` loop. */
  function Iterate(inspect: Inspector, queue: seq<string>, seen: set<string>): (r: Step)
    requires |queue| > 0
    ensures r.Done? ==> Fresh(queue, seen) && inspect(queue[0]).original == Some(r.url)
    ensures r.Continue? ==> r.seen == if Fresh(queue, seen) then seen + {queue[0]} else seen
    ensures r.Continue? && Fresh(queue, seen) ==> !(inspect(queue[0]).safeLink && inspect(queue[0]).original.Some?)
    ensures r.Continue? ==> queue[1..] <= r.queue
  {
    var current, rest := queue[0], queue[1..];
    if current == "" || current in seen then Continue(rest, seen)
    else
      var seen' := seen + {current};
      var info := inspect(current);
      var queue' := rest + Variants(current, info, seen');
      if !info.safeLink then Continue(queue', seen')
      else if info.original.Some? then Done(info.original.value)
      else Continue(queue' + Requeued(info, seen'), seen')
  }

  /** How the loop ends: a URL, an empty queue, or, in the model only, an exhausted budget. */
  datatype Outcome = Found(url: string) | NotFound | OutOfFuel

  /** The outcome together with the candidates processed, in order. */
  datatype Search = Search(outcome: Outcome, visited: seq<string>)

  /**
   * The loop from the given queue and seen set, for at most `fuel` iterations.
   * Each processed candidate is new and processed once; a found URL is the
   * decoded payload of the last candidate processed.
   */
  function Run(inspect: Inspector, queue: seq<string>, seen: set<string>, fuel: nat): (r: Search)
    ensures |r.visited| <= fuel
    ensures forall i :: 0 <= i < |r.visited| ==> r.visited[i] != "" && r.visited[i] !in seen
    ensures forall i, j :: 0 <= i < j < |r.visited| ==> r.visited[i] != r.visited[j]
    ensures r.outcome.Found? ==>
      |r.visited| > 0 && inspect(r.visited[|r.visited| - 1]).original == Some(r.outcome.url)
    decreases fuel
  {
    if |queue| == 0 then Search(NotFound, [])
    else if fuel == 0 then Search(OutOfFuel, [])
    else
      match Iterate(inspect, queue, seen)
      case Done(url) => Search(Found(url), [queue[0]])
      case Continue(q, s) =>
        var r := Run(inspect, q, s, fuel - 1);
        Search(r.outcome, (if Fresh(queue, seen) then [queue[0]] else []) + r.visited)
  }

  /** When nothing is found, no processed Safe Links candidate had a payload that decoded. */
  lemma {:induction false} RunNotFound(inspect: Inspector, queue: seq<string>, seen: set<string>, fuel: nat)
    requires !Run(inspect, queue, seen, fuel).outcome.Found?
    ensures var vs := Run(inspect, queue, seen, fuel).visited;
      forall i :: 0 <= i < |vs| ==> !(inspect(vs[i]).safeLink && inspect(vs[i]).original.Some?)
    decreases fuel
  {
    if |queue| > 0 && fuel > 0 {
      match Iterate(inspect, queue, seen)
      case Done(_) =>
      case Continue(q, s) =>
        RunNotFound(inspect, q, s, fuel - 1);
    }
  }

  /** The inspector `extractOriginalUrl` uses. */
  function InspectWith(parse: Parser): Inspector {
    s => Inspect(parse, s)
  }

  /** `extractOriginalUrl`: nothing for an empty href, else the loop from a queue holding only the href. */
  function ExtractOriginalUrl(parse: Parser, rawHref: string, fuel: nat): (r: Outcome)
    ensures rawHref == "" ==> r == NotFound
    ensures r.Found? ==> IsHttpish(r.url) && IsTrimmed(r.url) && r.url != ""
    ensures r.Found? ==> exists s :: Inspect(parse, s).safeLink && Inspect(parse, s).original == Some(r.url)
  {
    if rawHref == "" then NotFound
    else
      var search := Run(InspectWith(parse), [rawHref], {}, fuel);
      FoundByInspect(parse, search);
      search.outcome
  }

  /** A URL the loop finds is the decoded payload of the last candidate it processed. */
  lemma FoundByInspect(parse: Parser, search: Search)
    requires search.outcome.Found? ==>
      |search.visited| > 0 && InspectWith(parse)(search.visited[|search.visited| - 1]).original == Some(search.outcome.url)
    ensures search.outcome.Found? ==>
      exists s :: Inspect(parse, s).safeLink && Inspect(parse, s).original == Some(search.outcome.url)
  {
    if search.outcome.Found? {
      var last := search.visited[|search.visited| - 1];
      assert Inspect(parse, last).original == Some(search.outcome.url);
    }
  }

  /** An href that is itself a Safe Links URL with a decodable payload yields that payload in one iteration. */
  lemma ExtractDirect(parse: Parser, rawHref: string, fuel: nat)
    requires rawHref != "" && fuel >= 1
    requires SafeLinkOf(parse, rawHref).Some?
    requires DecodePayload(SafeLinksPayload(SafeLinkOf(parse, rawHref).value)).Some?
    ensures ExtractOriginalUrl(parse, rawHref, fuel)
      == Found(DecodePayload(SafeLinksPayload(SafeLinkOf(parse, rawHref).value)).value)
  {
    assert Fresh([rawHref], {});
    var step := Iterate(InspectWith(parse), [rawHref], {});
    assert step.Done? && step.url == Inspect(parse, rawHref).original.value;
  }

  /** A finished run is not changed by more fuel, so the outcome does not depend on the budget once it suffices. */
  lemma {:induction false} RunFuelMonotone(inspect: Inspector, queue: seq<string>, seen: set<string>, fuel: nat, more: nat)
    requires !Run(inspect, queue, seen, fuel).outcome.OutOfFuel?
    ensures Run(inspect, queue, seen, fuel + more) == Run(inspect, queue, seen, fuel)
    decreases fuel
  {
    if |queue| > 0 {
      match Iterate(inspect, queue, seen)
      case Done(_) =>
      case Continue(q, s) =>
        RunFuelMonotone(inspect, q, s, fuel - 1, more);
    }
  }

  lemma ExtractFuelMonotone(parse: Parser, rawHref: string, fuel: nat, more: nat)
    requires !ExtractOriginalUrl(parse, rawHref, fuel).OutOfFuel?
    ensures ExtractOriginalUrl(parse, rawHref, fuel + more) == ExtractOriginalUrl(parse, rawHref, fuel)
  {
    if rawHref != "" {
      RunFuelMonotone(InspectWith(parse), [rawHref], {}, fuel, more);
    }
  }

  /** A candidate that does not parse to a Safe Links URL only queues its decoded variants. */
  lemma OnlySafeLinksQueuePayloads(parse: Parser, queue: seq<string>, seen: set<string>)
    requires |queue| > 0 && Fresh(queue, seen)
    requires SafeLinkOf(parse, queue[0]).None?
    ensures var info := Inspect(parse, queue[0]);
      Iterate(InspectWith(parse), queue, seen)
      == Continue(queue[1..] + Variants(queue[0], info, seen + {queue[0]}), seen + {queue[0]})
  {
  }

  /** A non-empty payload that decodes to no URL is queued for another round instead of being returned. */
  lemma UndecodablePayloadRequeued(parse: Parser, queue: seq<string>, seen: set<string>, u: Url)
    requires |queue| > 0 && Fresh(queue, seen)
    requires SafeLinkOf(parse, queue[0]) == Some(u)
    requires Truthy(SafeLinksPayload(u)) && DecodePayload(SafeLinksPayload(u)).None?
    requires SafeLinksPayload(u).value !in seen + {queue[0]}
    ensures var info := Inspect(parse, queue[0]);
      Iterate(InspectWith(parse), queue, seen)
      == Continue(queue[1..] + Variants(queue[0], info, seen + {queue[0]}) + [SafeLinksPayload(u).value],
                  seen + {queue[0]})
  {
  }

  /** One iteration either returns or continues the run from the state it leaves. */
  lemma RunUnfold(inspect: Inspector, queue: seq<string>, seen: set<string>, fuel: nat)
    requires |queue| > 0 && fuel > 0
    ensures var step := Iterate(inspect, queue, seen);
      Run(inspect, queue, seen, fuel).outcome
      == if step.Done? then Found(step.url) else Run(inspect, step.queue, step.seen, fuel - 1).outcome
  {
  }

  lemma ExtractIsRun(parse: Parser, rawHref: string, fuel: nat)
    requires rawHref != ""
    ensures ExtractOriginalUrl(parse, rawHref, fuel) == Run(InspectWith(parse), [rawHref], {}, fuel).outcome
  {
  }

  /**
   * The `while (queue.length)` loop as the script writes it, with a queue, a
   * seen set and an iteration budget, for any candidate inspector.
   */
  method SearchLoop(inspect: Inspector, rawHref: string, fuel: nat) returns (r: Outcome)
    ensures r == Run(inspect, [rawHref], {}, fuel).outcome
  {
    var queue: seq<string> := [rawHref];
    var seen: set<string> := {};
    var left := fuel;
    while |queue| > 0 && left > 0
      invariant Run(inspect, queue, seen, left).outcome == Run(inspect, [rawHref], {}, fuel).outcome
      decreases left
    {
      RunUnfold(inspect, queue, seen, left);
      ghost var step := Iterate(inspect, queue, seen);
      var current := queue[0];
      queue := queue[1..];
      left := left - 1;
      if current == "" || current in seen {
        assert step == Continue(queue, seen);
        continue;
      }
      seen := seen + {current};
      var info := inspect(current);
      queue := queue + Variants(current, info, seen);
      if !info.safeLink {
        assert step == Continue(queue, seen);
        continue;
      }
      if info.original.Some? {
        assert step == Done(info.original.value);
        return Found(info.original.value);
      }
      queue := queue + Requeued(info, seen);
      assert step == Continue(queue, seen);
    }
    if |queue| == 0 {
      return NotFound;
    }
    return OutOfFuel;
  }

  /** `extractOriginalUrl` as a program: the loop with the real decoders. */
  method ExtractOriginalUrlLoop(parse: Parser, rawHref: string, fuel: nat) returns (r: Outcome)
    ensures r == ExtractOriginalUrl(parse, rawHref, fuel)
    ensures r.Found? ==> IsHttpish(r.url) && IsTrimmed(r.url)
  {
    if rawHref == "" {
      return NotFound;
    }
    r := SearchLoop(InspectWith(parse), rawHref, fuel);
    ExtractIsRun(parse, rawHref, fuel);
  }

  // ---- resolveOriginal ----

  /** A link element: its `href` attribute and the `safelinksOriginal` entry of its dataset. */
  datatype Anchor = Anchor(href: Option<string>, cached: Option<string>)

  /** The value `resolveOriginal` returns and the element as it leaves it. */
  datatype Resolution = Resolution(result: Option<string>, element: Option<Anchor>)

  /** `extractOriginalUrl` with `null` for both "nothing found" and an exhausted budget. */
  function ExtractOrNull(parse: Parser, fuel: nat): string -> Option<string> {
    s => match ExtractOriginalUrl(parse, s, fuel)
         case Found(url) => Some(url)
         case _ => None
  }

  /**
   * `resolveOriginal`: the cached value when there is one, else the extracted URL
   * when it differs from the href, which is then cached; nothing without an href.
   */
  function ResolveOriginal(extract: string -> Option<string>, element: Option<Anchor>): (r: Resolution)
    ensures element.None? ==> r.result.None?
    ensures element.Some? ==> r.element.Some? && r.element.value.href == element.value.href
    ensures element.Some? && !Truthy(element.value.href) ==> r.result.None?
    ensures r.result.Some? ==> r.result.value != "" && r.element.Some? && r.element.value.cached == r.result
    ensures element.Some? && Truthy(element.value.href) && Truthy(element.value.cached) ==>
      r == Resolution(element.value.cached, element)
    ensures (element.Some? && Truthy(element.value.href) && !Truthy(element.value.cached)
             && Truthy(extract(element.value.href.value))
             && extract(element.value.href.value).value != element.value.href.value) ==>
      r.result == extract(element.value.href.value) && r.element == Some(element.value.(cached := r.result))
    ensures r.element != element ==>
      element.Some? && Truthy(element.value.href) && !Truthy(element.value.cached)
      && r.result == extract(element.value.href.value)
      && r.result.Some? && r.result.value != element.value.href.value
  {
    match element
    case None => Resolution(None, None)
    case Some(a) =>
      if !Truthy(a.href) then Resolution(None, element)
      else if Truthy(a.cached) then Resolution(a.cached, element)
      else
        var restored := extract(a.href.value);
        if Truthy(restored) && restored.value != a.href.value then
          Resolution(restored, Some(a.(cached := restored)))
        else Resolution(None, element)
  }

  /** A cached value is returned whatever the extractor would say, and the element is left alone. */
  lemma CachedWithoutRecomputation(e1: string -> Option<string>, e2: string -> Option<string>, a: Anchor)
    requires Truthy(a.href) && Truthy(a.cached)
    ensures ResolveOriginal(e1, Some(a)) == ResolveOriginal(e2, Some(a)) == Resolution(a.cached, Some(a))
  {
  }

  /** Resolving again gives the same answer and leaves the element as the first call left it. */
  lemma ResolveIdempotent(extract: string -> Option<string>, element: Option<Anchor>)
    ensures var r := ResolveOriginal(extract, element);
            ResolveOriginal(extract, r.element) == r
  {
  }

  /** When the extractor only yields httpish URLs, the cache only ever holds httpish URLs. */
  lemma CacheStaysHttpish(parse: Parser, fuel: nat, element: Option<Anchor>)
    requires element.Some? && element.value.cached.Some? ==> IsHttpish(element.value.cached.value)
    ensures var r := ResolveOriginal(ExtractOrNull(parse, fuel), element);
            r.element.Some? && r.element.value.cached.Some? ==> IsHttpish(r.element.value.cached.value)
  {
  }
}
