/**
 * The decoding logic of the background script: the context-menu decoder
 * `deobfuscateUrl` with its Proofpoint and common-parameter helpers, the
 * service labeller `identifyService`, and the per-message counter `scanPart`.
 */
module Background {
  import opened Options
  import opened Text
  import opened UriCoding
  import opened Urls

  /** `/^https?:\/\//i`. */
  predicate HasHttpScheme(s: string) {
    StartsWithIgnoreCase(s, "http://") || StartsWithIgnoreCase(s, "https://")
  }

  /** Percent-decodes `s` and keeps the result only if it is an http(s) URL; a decoding error counts as nothing. */
  function DecodeHttp(s: string): (r: Option<string>)
    ensures r.Some? ==> HasHttpScheme(r.value) && DecodeURIComponent(s) == r
    ensures r.None? ==> DecodeURIComponent(s).None? || !HasHttpScheme(DecodeURIComponent(s).value)
  {
    match DecodeURIComponent(s)
    case Some(d) => if HasHttpScheme(d) then Some(d) else None
    case None => None
  }

  // ---- Proofpoint ----

  /** Proofpoint v2 writes `/` as `_` and `%` as `-`; this undoes the substitution. */
  function UndoV2Substitution(s: string): string {
    ReplaceChar(ReplaceChar(s, '_', '/'), '-', '%')
  }

  /** `decodeProofpointV2`: never throws; a result is always an http(s) URL. */
  function DecodeProofpointV2(encoded: string): (r: Option<string>)
    ensures r.Some? ==> HasHttpScheme(r.value)
    ensures r.Some? ==> DecodeURIComponent(UndoV2Substitution(encoded)) == r
    ensures r.None? ==> DecodeURIComponent(UndoV2Substitution(encoded)).None?
                        || !HasHttpScheme(DecodeURIComponent(UndoV2Substitution(encoded)).value)
  {
    DecodeHttp(UndoV2Substitution(encoded))
  }

  /** `decodeProofpointV3`: a plain percent-decode, kept only if http(s). */
  function DecodeProofpointV3(encoded: string): (r: Option<string>)
    ensures r.Some? ==> HasHttpScheme(r.value)
    ensures r.Some? ==> DecodeURIComponent(encoded) == r
    ensures r.None? ==> DecodeURIComponent(encoded).None? || !HasHttpScheme(DecodeURIComponent(encoded).value)
  {
    DecodeHttp(encoded)
  }

  /** Characters a Proofpoint v2 payload may carry unescaped in this model's encoder. */
  predicate IsV2Plain(c: char) {
    'a' <= c <= 'z' || 'A' <= c <= 'Z' || '0' <= c <= '9' || c == '.' || c == ':' || c == '/'
  }

  /** The v2 encoding of a URL: percent-encode, then write `/` as `_` and `%` as `-`. */
  function EncodeProofpointV2(url: string): string {
    ReplaceChar(ReplaceChar(PercentEncode(url, IsV2Plain), '/', '_'), '%', '-')
  }

  lemma NoDashOrUnderscoreInV2Escapes(bs: seq<Byte>)
    ensures forall i :: 0 <= i < |EscapeOctets(bs)| ==> EscapeOctets(bs)[i] != '-' && EscapeOctets(bs)[i] != '_'
  {
  }

  lemma {:induction false} NoDashOrUnderscoreInV2Encoding(url: string)
    ensures forall i :: 0 <= i < |PercentEncode(url, IsV2Plain)| ==>
      PercentEncode(url, IsV2Plain)[i] != '-' && PercentEncode(url, IsV2Plain)[i] != '_'
  {
    if |url| > 0 {
      NoDashOrUnderscoreInV2Escapes(Utf8Encode(url[0]));
      NoDashOrUnderscoreInV2Encoding(url[1..]);
    }
  }

  /** Proofpoint v2 decoding inverts v2 encoding for every http(s) URL. */
  lemma ProofpointV2RoundTrip(url: string)
    requires HasHttpScheme(url)
    ensures DecodeProofpointV2(EncodeProofpointV2(url)) == Some(url)
  {
    var t := PercentEncode(url, IsV2Plain);
    NoDashOrUnderscoreInV2Encoding(url);
    assert UndoV2Substitution(EncodeProofpointV2(url)) == t;
    PercentEncodeRoundTrip(url, IsV2Plain);
  }

  /** Proofpoint v3 decoding inverts `encodeURIComponent` for every http(s) URL. */
  lemma ProofpointV3RoundTrip(url: string)
    requires HasHttpScheme(url)
    ensures DecodeProofpointV3(EncodeURIComponent(url)) == Some(url)
  {
    EncodeURIComponentRoundTrip(url);
  }

  /** ECMAScript line terminators, which the regular-expression `.` does not match. */
  predicate IsLineTerminator(c: char) {
    c == '\n' || c == '\r' || c == '\U{2028}' || c == '\U{2029}'
  }

  /** `(.+?)__` can match the start of `s` with a group of length `m`. */
  predicate GroupAt(s: string, m: int) {
    && 1 <= m && m + 2 <= |s| && s[m..m + 2] == "__"
    && forall i :: 0 <= i < m ==> !IsLineTerminator(s[i])
  }

  /** The lazy group: the shortest `m >= k` with `GroupAt(s, m)`, given that `s[..k-1]` has no line terminator. */
  function LazyGroup(s: string, k: nat): (r: Option<string>)
    requires 1 <= k <= |s| + 1
    requires forall i :: 0 <= i < k - 1 ==> !IsLineTerminator(s[i])
    ensures r.Some? ==> k <= |r.value| && GroupAt(s, |r.value|) && r.value == s[..|r.value|]
    ensures r.Some? ==> forall m :: k <= m < |r.value| ==> !GroupAt(s, m)
    ensures r.None? ==> forall m :: k <= m ==> !GroupAt(s, m)
    decreases |s| + 1 - k
  {
    if k > |s| || IsLineTerminator(s[k - 1]) then None
    else if k + 2 <= |s| && s[k..k + 2] == "__" then Some(s[..k])
    else LazyGroup(s, k + 1)
  }

  /** `/\/v3\/__(.+?)__/` matches at index `j` of `path` with a group of length `m`. */
  predicate V3At(path: string, j: int, m: int) {
    0 <= j && j + 6 <= |path| && path[j..j + 6] == "/v3/__" && GroupAt(path[j + 6..], m)
  }

  /** The group of the leftmost match at or after index `i`. */
  function V3From(path: string, i: nat): (r: Option<string>)
    requires i <= |path|
    ensures r.Some? ==> exists j, m :: i <= j && V3At(path, j, m) && r.value == path[j + 6..j + 6 + m]
                          && (forall j', m' :: i <= j' < j ==> !V3At(path, j', m'))
                          && (forall m' :: m' < m ==> !V3At(path, j, m'))
    ensures r.None? ==> forall j, m :: i <= j ==> !V3At(path, j, m)
    decreases |path| - i
  {
    if i + 6 > |path| then None
    else if path[i..i + 6] == "/v3/__" && LazyGroup(path[i + 6..], 1).Some? then
      var g := LazyGroup(path[i + 6..], 1);
      assert V3At(path, i, |g.value|);
      g
    else V3From(path, i + 1)
  }

  /** `pathname.match(/\/v3\/__(.+?)__/)[1]`, or `None` when there is no match. */
  function V3Payload(path: string): (r: Option<string>)
    ensures r.Some? ==> r.value != ""
    ensures r.None? <==> forall j, m :: !V3At(path, j, m)
  {
    var r := V3From(path, 0);
    if r.Some? then
      var j, m :| 0 <= j && V3At(path, j, m) && r.value == path[j + 6..j + 6 + m];
      r
    else r
  }

  // ---- Common parameters ----

  /** What `tryCommonParams` takes from one parameter name: its value, if non-empty, decodable and http(s). */
  function ParamCandidate(u: Url, name: string): Option<string> {
    var value := Get(u, name);
    if Truthy(value) then DecodeHttp(value.value) else None
  }

  /** `tryCommonParams`: the first name, in list order, that gives a candidate. */
  function TryCommonParams(u: Url, names: seq<string>): (r: Option<string>)
    ensures r.Some? ==> HasHttpScheme(r.value)
    ensures r.None? <==> forall i :: 0 <= i < |names| ==> ParamCandidate(u, names[i]).None?
  {
    if |names| == 0 then None
    else
      var first := ParamCandidate(u, names[0]);
      if first.Some? then first
      else
        var r := TryCommonParams(u, names[1..]);
        assert forall i :: 1 <= i < |names| ==> names[i] == names[1..][i - 1];
        r
  }

  /** The name that decides is the first that gives a candidate; later names are not consulted. */
  lemma {:induction false} TryCommonParamsAt(u: Url, names: seq<string>, k: nat)
    requires k < |names| && ParamCandidate(u, names[k]).Some?
    requires forall j :: 0 <= j < k ==> ParamCandidate(u, names[j]).None?
    ensures TryCommonParams(u, names) == ParamCandidate(u, names[k])
    decreases k
  {
    if k > 0 {
      assert ParamCandidate(u, names[0]).None?;
      assert forall j :: 0 <= j < k - 1 ==> names[1..][j] == names[j + 1];
      TryCommonParamsAt(u, names[1..], k - 1);
    }
  }

  // ---- The vendor rule table ----

  /** `s.includes(n)` for some needle `n`. */
  predicate ContainsAny(s: string, needles: seq<string>) {
    exists i :: 0 <= i < |needles| && Contains(s, needles[i])
  }

  /** A hostname predicate: some needle occurs, or every needle occurs. */
  datatype HostTest = AnyOf(needles: seq<string>) | AllOf(needles: seq<string>)

  predicate HostMatches(t: HostTest, host: string) {
    match t
    case AnyOf(ns) => ContainsAny(host, ns)
    case AllOf(ns) => forall i :: 0 <= i < |ns| ==> Contains(host, ns[i])
  }

  /** A vendor rule: hostname predicate and the parameter names given to `tryCommonParams`. */
  datatype VendorRule = VendorRule(test: HostTest, params: seq<string>)

  /** The rules after Safe Links and Proofpoint, in source order. */
  const VendorRules: seq<VendorRule> := [
    VendorRule(AllOf(["protect", "mimecast"]), ["url", "u"]),                                    // Mimecast
    VendorRule(AnyOf(["barracuda", "linkprotect.cudasvc.com"]), ["url", "u", "a"]),               // Barracuda
    VendorRule(AnyOf(["cisco", "iphmx.com", "protected.res.cisco.com"]), ["url", "u"]),           // Cisco
    VendorRule(AnyOf(["checkpoint", "urlsand.net"]), ["url", "u", "dest"]),                       // Check Point
    VendorRule(AnyOf(["egress", "egressdefend.com"]), ["url", "u"]),                              // Egress
    VendorRule(AnyOf(["symantec", "messagelabs", "broadcom"]), ["url", "u", "continue"]),         // Symantec
    VendorRule(AnyOf(["sophos", "sandboxsafe.com"]), ["url", "u"]),                               // Sophos
    VendorRule(AnyOf(["trendmicro", "tmurl.net"]), ["url", "u", "URL"]),                          // Trend Micro
    VendorRule(AnyOf(["trustwave", "mailmarshal"]), ["url", "u"]),                                // Trustwave
    VendorRule(AnyOf(["postoffice", "po.mx"]), ["url", "u"]),                                     // PostOffice
    VendorRule(AnyOf(["intermedia", "webscan.intermedia.net"]), ["url", "u"]),                    // Intermedia
    VendorRule(AnyOf(["hornetsecurity", "atpurl.com"]), ["url", "u"]),                            // Hornetsecurity
    VendorRule(AnyOf(["opentext", "edgepilot", "websense"]), ["url", "u", "dest"]),               // OpenText
    VendorRule(AnyOf(["fireeye", "trellix", "mandiant"]), ["url", "u"]),                          // FireEye
    VendorRule(AnyOf(["urlprotect", "linkprotect", "urldefense", "safeurl", "securemail", "maildefense"]),
               ["url", "u", "dest", "destination", "target", "link"])                             // generic
  ]

  /** What one rule yields: its parameters' first candidate, if its hostname predicate holds. */
  function RuleResult(rule: VendorRule, u: Url, host: string): Option<string> {
    if HostMatches(rule.test, host) then TryCommonParams(u, rule.params) else None
  }

  /** Whether some rule's hostname predicate holds. */
  predicate AnyRuleMatches(rules: seq<VendorRule>, host: string)
    decreases |rules|
  {
    |rules| > 0 && (HostMatches(rules[0].test, host) || AnyRuleMatches(rules[1..], host))
  }

  /**
   * The vendor chain: the first rule, in order, whose predicate holds AND whose
   * parameters yield a URL. A rule that matches but yields nothing does not stop the chain.
   */
  function TryVendorRules(rules: seq<VendorRule>, u: Url, host: string): (r: Option<string>)
    ensures r.Some? ==> HasHttpScheme(r.value) && AnyRuleMatches(rules, host)
    ensures r.None? <==> forall i :: 0 <= i < |rules| ==> RuleResult(rules[i], u, host).None?
  {
    if |rules| == 0 then None
    else
      var first := RuleResult(rules[0], u, host);
      if first.Some? then first
      else
        var r := TryVendorRules(rules[1..], u, host);
        assert forall i :: 1 <= i < |rules| ==> rules[i] == rules[1..][i - 1];
        r
  }

  /** The rule that decides is the first whose result is a URL; a matching rule with no result is passed over. */
  lemma {:induction false} TryVendorRulesAt(rules: seq<VendorRule>, u: Url, host: string, k: nat)
    requires k < |rules| && RuleResult(rules[k], u, host).Some?
    requires forall j :: 0 <= j < k ==> RuleResult(rules[j], u, host).None?
    ensures TryVendorRules(rules, u, host) == RuleResult(rules[k], u, host)
    decreases k
  {
    if k > 0 {
      assert RuleResult(rules[0], u, host).None?;
      assert forall j :: 0 <= j < k - 1 ==> rules[1..][j] == rules[j + 1];
      TryVendorRulesAt(rules[1..], u, host, k - 1);
    }
  }

  // ---- deobfuscateUrl ----

  const SafeLinksNeedle := "safelinks.protection.outlook.com"

  /** A Proofpoint hostname. */
  predicate IsProofpointHost(host: string) {
    Contains(host, "urldefense.proofpoint.com") || Contains(host, "urldefense.com")
  }

  /** How one stage of the decoder ends: a `return`, falling to the next stage, or an exception. */
  datatype Flow = Return(url: string) | FallThrough | Throw

  /** The unguarded `decodeURIComponent(v)`: its value is returned, its exception escapes. */
  function ReturnDecoded(v: string): Flow {
    match DecodeURIComponent(v)
    case Some(d) => Return(d)
    case None => Throw
  }

  /** The `url`, else `u`, payload the Safe Links stage reads. */
  function SafeLinksPayload(u: Url): Option<string> {
    Or(Get(u, "url"), Get(u, "u"))
  }

  function SafeLinksStage(u: Url, host: string): Flow {
    if Contains(host, SafeLinksNeedle) && Truthy(SafeLinksPayload(u)) then ReturnDecoded(SafeLinksPayload(u).value)
    else FallThrough
  }

  /** The v2 strategy: the first `u` value, decoded as Proofpoint v2. */
  function ProofpointV2Result(u: Url): Option<string> {
    var v := Get(u, "u");
    if Truthy(v) then DecodeProofpointV2(v.value) else None
  }

  /** The v3 strategy: the payload between `/v3/__` and `__` in the path, decoded as Proofpoint v3. */
  function ProofpointV3Result(u: Url): Option<string> {
    match V3Payload(u.pathname)
    case Some(p) => DecodeProofpointV3(p)
    case None => None
  }

  function ProofpointStage(u: Url, host: string): Flow {
    if !IsProofpointHost(host) then FallThrough
    else if Truthy(ProofpointV2Result(u)) then Return(ProofpointV2Result(u).value)
    else if Truthy(ProofpointV3Result(u)) then Return(ProofpointV3Result(u).value)
    else if Truthy(Get(u, "url")) then ReturnDecoded(Get(u, "url").value)
    else FallThrough
  }

  /** `deobfuscateUrl` on an already parsed URL; `None` is `null`. */
  function Deobfuscate(parsed: Option<Url>): (r: Option<string>)
    ensures parsed.None? ==> r.None?
    ensures r.Some? && !HasHttpScheme(r.value) ==>
      Contains(Lower(parsed.value.hostname), SafeLinksNeedle) || IsProofpointHost(Lower(parsed.value.hostname))
  {
    match parsed
    case None => None
    case Some(u) =>
      var host := Lower(u.hostname);
      match SafeLinksStage(u, host)
      case Return(x) => Some(x)
      case Throw => None
      case FallThrough =>
        match ProofpointStage(u, host)
        case Return(x) => Some(x)
        case Throw => None
        case FallThrough => TryVendorRules(VendorRules, u, host)
  }

  /** `deobfuscateUrl(url)`: parse, then decode; a parse failure is `null`. */
  function DeobfuscateUrl(parse: Parser, url: string): (r: Option<string>)
    ensures parse(url).None? ==> r.None?
  {
    Deobfuscate(parse(url))
  }

  /**
   * Safe Links comes first and is unchecked: a Safe Links hostname with a non-empty
   * `url` (else `u`) payload yields exactly that payload percent-decoded, with no
   * scheme check, and `null` when the payload is malformed, whatever later rules say.
   */
  lemma SafeLinksPrecedence(u: Url)
    requires Contains(Lower(u.hostname), SafeLinksNeedle) && Truthy(SafeLinksPayload(u))
    ensures Deobfuscate(Some(u)) == DecodeURIComponent(SafeLinksPayload(u).value)
  {
  }

  /**
   * On a Proofpoint hostname that the Safe Links stage let through, the strategies run
   * in order v2, v3, `url`; each is consulted only when the earlier ones yield nothing,
   * and when all three yield nothing the vendor rules decide.
   */
  lemma ProofpointOrder(u: Url)
    requires !(Contains(Lower(u.hostname), SafeLinksNeedle) && Truthy(SafeLinksPayload(u)))
    requires IsProofpointHost(Lower(u.hostname))
    ensures Truthy(ProofpointV2Result(u)) ==> Deobfuscate(Some(u)) == ProofpointV2Result(u)
    ensures !Truthy(ProofpointV2Result(u)) && Truthy(ProofpointV3Result(u)) ==>
      Deobfuscate(Some(u)) == ProofpointV3Result(u)
    ensures !Truthy(ProofpointV2Result(u)) && !Truthy(ProofpointV3Result(u)) && Truthy(Get(u, "url")) ==>
      Deobfuscate(Some(u)) == DecodeURIComponent(Get(u, "url").value)
    ensures !Truthy(ProofpointV2Result(u)) && !Truthy(ProofpointV3Result(u)) && !Truthy(Get(u, "url")) ==>
      Deobfuscate(Some(u)) == TryVendorRules(VendorRules, u, Lower(u.hostname))
  {
  }

  /** Off the Safe Links and Proofpoint paths, the result is the vendor chain's: first matching rule that yields, else `null`. */
  lemma VendorRulesDecide(u: Url)
    requires !(Contains(Lower(u.hostname), SafeLinksNeedle) && Truthy(SafeLinksPayload(u)))
    requires !IsProofpointHost(Lower(u.hostname))
    ensures Deobfuscate(Some(u)) == TryVendorRules(VendorRules, u, Lower(u.hostname))
  {
  }

  /** The example hostname is lower case and carries the Safe Links needle, the Mimecast rule's and its own `protect`. */
  lemma ExampleHost(host: string)
    requires host == "protect.mimecast." + SafeLinksNeedle
    ensures Lower(host) == host
    ensures Contains(host, SafeLinksNeedle)
    ensures HostMatches(VendorRules[0].test, host)
  {
    ExampleHostLower("protect.mimecast.", host);
    ExampleHostNeedles("protect.mimecast.", host);
  }

  lemma ExampleHostLower(a: string, host: string)
    requires a == "protect.mimecast." && host == a + SafeLinksNeedle
    ensures Lower(host) == host
  {
    LowerOfNoUpper(a);
    LowerOfNoUpper(SafeLinksNeedle);
    LowerAppend(a, SafeLinksNeedle);
  }

  lemma ExampleHostNeedles(a: string, host: string)
    requires a == "protect.mimecast." && host == a + SafeLinksNeedle
    ensures Contains(host, SafeLinksNeedle) && Contains(host, "protect") && Contains(host, "mimecast")
  {
    assert host[17..] == SafeLinksNeedle;
    OccursContains(host, SafeLinksNeedle, 17);
    assert host[..7] == a[..7] == "protect";
    OccursContains(host, "protect", 0);
    assert host[8..16] == a[8..16] == "mimecast";
    OccursContains(host, "mimecast", 8);
  }

  lemma MalformedEscapeExample()
    ensures DecodeURIComponent("%E0%A4").None?
  {
    assert LeadingOctet("%E0%A4") == Some(0xE0);
    assert LeadingOctets("%E0%A4", 3).None? by {
      assert LeadingOctet("%E0%A4"[6..]).None?;
    }
  }

  lemma PlainHttpsExample(s: string)
    requires s == "https://example.com/"
    ensures DecodeHttp(s) == Some(s)
  {
    assert s[..8] == "https://";
    LowerOfNoUpper(s[..8]);
  }

  /** A malformed Safe Links payload makes the whole call `null` although the Mimecast rule would have matched. */
  lemma MalformedSafeLinksPayloadAborts(u: Url)
    requires u == Url("protect.mimecast." + SafeLinksNeedle, "/",
                      [("url", "%E0%A4"), ("u", "https://example.com/")])
    ensures RuleResult(VendorRules[0], u, Lower(u.hostname)) == Some("https://example.com/")
    ensures Deobfuscate(Some(u)) == None
  {
    ExampleHost(u.hostname);
    MalformedEscapeExample();
    assert Get(u, "url") == Some("%E0%A4");
    assert Get(u, "u") == Some("https://example.com/");
    ExampleCandidates(u);
    assert TryCommonParams(u, ["url", "u"]) == Some("https://example.com/");
    SafeLinksPrecedence(u);
  }

  lemma ExampleCandidates(u: Url)
    requires Get(u, "url") == Some("%E0%A4") && Get(u, "u") == Some("https://example.com/")
    ensures ParamCandidate(u, "url") == None
    ensures ParamCandidate(u, "u") == Some("https://example.com/")
  {
    MalformedEscapeExample();
    PlainHttpsExample("https://example.com/");
  }

  lemma DecodeSpaceEscapeExample()
    ensures DecodeURIComponent("https://example.com/a%20b") == Some("https://example.com/a b")
  {
    assert DecodeURIComponent("%20b") == Some(" b") by {
      assert LeadingOctet("%20b") == Some(0x20);
      assert LeadingEscape("%20b") == Some((0x20 as char, 3));
      assert "%20b"[3..] == "b";
      assert DecodeURIComponent("b") == Some("b");
      assert [0x20 as char] + "b" == " b";
    }
    DecodeOfPlainPrefix("https://example.com/a", "%20b");
    assert "https://example.com/a" + "%20b" == "https://example.com/a%20b";
    assert "https://example.com/a" + " b" == "https://example.com/a b";
  }

  lemma SafeLinksHostExample(host: string)
    requires host == "safelinks.protection.outlook.com"
    ensures Lower(host) == host && Contains(host, SafeLinksNeedle)
  {
    LowerOfNoUpper(host);
    assert SafeLinksNeedle <= host;
  }

  /**
   * The query value, which the URL parser has already form-decoded, is percent-decoded
   * a second time: a destination written `a%20b` comes back as `a b`.
   */
  lemma SafeLinksDecodesTwice(u: Url)
    requires u == Url("safelinks.protection.outlook.com", "/", [("url", "https://example.com/a%20b")])
    ensures Deobfuscate(Some(u)) == Some("https://example.com/a b")
  {
    SafeLinksHostExample(u.hostname);
    assert Get(u, "url") == Some("https://example.com/a%20b");
    SafeLinksPrecedence(u);
    DecodeSpaceEscapeExample();
  }

  // ---- identifyService ----

  /** The labels of `identifyService` with the substrings that select them, in test order. */
  const ServiceTable: seq<(string, seq<string>)> := [
    ("Microsoft Safe Links", ["safelinks.protection.outlook.com"]),
    ("Proofpoint URL Defense", ["urldefense.proofpoint.com", "urldefense.com"]),
    ("Mimecast URL Protect", ["mimecast"]),
    ("Barracuda Link Protection", ["barracuda"]),
    ("Cisco Secure Email", ["cisco", "iphmx"]),
    ("Check Point Harmony", ["checkpoint", "urlsand"]),
    ("Egress Defend", ["egress"]),
    ("Symantec/Broadcom", ["symantec", "messagelabs", "broadcom"]),
    ("Sophos Email Security", ["sophos"]),
    ("Trend Micro", ["trendmicro", "tmurl"]),
    ("Trustwave MailMarshal", ["trustwave"]),
    ("PostOffice", ["postoffice", "po.mx"]),
    ("Intermedia", ["intermedia"]),
    ("Hornetsecurity ATP", ["hornetsecurity", "atpurl"]),
    ("OpenText/EdgePilot", ["opentext", "edgepilot", "websense"]),
    ("FireEye/Trellix", ["fireeye", "trellix", "mandiant"])
  ]

  const UnknownService := "Unknown Protection Service"

  /** The label of the first entry whose substrings meet `lower`, else the default. */
  function FirstLabel(table: seq<(string, seq<string>)>, lower: string): (r: string)
    requires forall i :: 0 <= i < |table| ==> table[i].0 != UnknownService
    ensures r == UnknownService <==> forall i :: 0 <= i < |table| ==> !ContainsAny(lower, table[i].1)
    ensures r != UnknownService ==>
      exists i :: 0 <= i < |table| && r == table[i].0 && ContainsAny(lower, table[i].1)
                  && forall j :: 0 <= j < i ==> !ContainsAny(lower, table[j].1)
  {
    if |table| == 0 then UnknownService
    else if ContainsAny(lower, table[0].1) then table[0].0
    else
      var r := FirstLabel(table[1..], lower);
      assert forall i :: 1 <= i < |table| ==> table[i] == table[1..][i - 1];
      r
  }

  /**
   * `identifyService(url)`: total; tests the lowercased whole URL, not only its
   * hostname, and answers with the first entry in table order.
   */
  function IdentifyService(url: string): (r: string)
    ensures r == UnknownService <==> forall i :: 0 <= i < |ServiceTable| ==> !ContainsAny(Lower(url), ServiceTable[i].1)
    ensures r != UnknownService ==>
      exists i :: 0 <= i < |ServiceTable| && r == ServiceTable[i].0 && ContainsAny(Lower(url), ServiceTable[i].1)
                  && forall j :: 0 <= j < i ==> !ContainsAny(Lower(url), ServiceTable[j].1)
  {
    FirstLabel(ServiceTable, Lower(url))
  }

  /** Labels ignore case: a URL and its lowercase form get the same label. */
  lemma IdentifyServiceIgnoresCase(url: string)
    ensures IdentifyService(url) == IdentifyService(Lower(url))
  {
    LowerIdempotent(url);
  }

  // ---- scanPart ----

  /** The background script's own table of protection domains, searched in message bodies. */
  const ScanDomains: seq<string> := [
    "safelinks.protection.outlook.com", "urldefense.proofpoint.com", "urldefense.com", "mimecast",
    "barracuda", "linkprotect.cudasvc.com", "cisco", "iphmx.com", "checkpoint", "urlsand.net",
    "egress", "symantec", "messagelabs", "sophos", "trendmicro", "tmurl.net", "trustwave",
    "postoffice", "intermedia", "hornetsecurity", "opentext", "fireeye", "trellix"
  ]

  /**
   * `text.match(new RegExp(escaped, "gi")).length` for a literal pattern: the
   * non-overlapping, left-to-right, ASCII case-insensitive occurrences.
   */
  function CountOccurrences(text: string, pat: string): nat
    requires |pat| > 0
    decreases |text|
  {
    if |text| < |pat| then 0
    else if StartsWithIgnoreCase(text, Lower(pat)) then 1 + CountOccurrences(text[|pat|..], pat)
    else CountOccurrences(text[1..], pat)
  }

  /** The occurrences never overlap, so they fit in the text. */
  lemma {:induction false} CountOccurrencesFits(text: string, pat: string)
    requires |pat| > 0
    ensures CountOccurrences(text, pat) * |pat| <= |text|
    decreases |text|
  {
    if |text| >= |pat| {
      if StartsWithIgnoreCase(text, Lower(pat)) {
        CountOccurrencesFits(text[|pat|..], pat);
        FitsStep(CountOccurrences(text[|pat|..], pat), |pat|, |text|);
      } else {
        CountOccurrencesFits(text[1..], pat);
      }
    }
  }

  /** One more non-overlapping occurrence of length `k` still fits. */
  lemma FitsStep(rest: nat, k: nat, n: nat)
    requires k <= n && rest * k <= n - k
    ensures (1 + rest) * k <= n
  {
    assert (1 + rest) * k == k + rest * k;
  }

  /** Some occurrence is counted exactly when the pattern occurs, ignoring case. */
  lemma {:induction false} CountOccurrencesPositive(text: string, pat: string)
    requires |pat| > 0
    ensures CountOccurrences(text, pat) > 0 <==> Contains(Lower(text), Lower(pat))
    decreases |text|
  {
    var l, p := Lower(text), Lower(pat);
    if |text| < |pat| {
      if Contains(l, p) {
        var i := ContainsWitness(l, p);
      }
    } else if StartsWithIgnoreCase(text, p) {
      LowerSlice(text, 0, |pat|);
      assert p <= l;
    } else {
      LowerSlice(text, 0, |pat|);
      LowerSlice(text, 1, |text|);
      assert !(p <= l);
      assert l[1..] == Lower(text[1..]);
      CountOccurrencesPositive(text[1..], pat);
    }
  }

  /** All table domains' occurrences in one body. */
  function BodyCount(body: string, domains: seq<string>): nat
    requires forall i :: 0 <= i < |domains| ==> |domains[i]| > 0
  {
    if |domains| == 0 then 0 else CountOccurrences(body, domains[0]) + BodyCount(body, domains[1..])
  }

  /** A message part: an optional body and its sub-parts (none when the part has no `parts`). */
  datatype Part = Part(body: Option<string>, parts: seq<Part>)

  /** What `scanPart` adds to the counter for a part and everything below it. */
  function PartCount(p: Part): nat
    decreases p, 1
  {
    (if Truthy(p.body) then BodyCount(p.body.value, ScanDomains) else 0)
    + PartsCount(p.parts)
  }

  function PartsCount(ps: seq<Part>): nat
    decreases ps, 0
  {
    if |ps| == 0 then 0 else PartCount(ps[0]) + PartsCount(ps[1..])
  }

  /** A body adds to the counter exactly when some table domain occurs in it, ignoring case. */
  lemma {:induction false} BodyCountPositive(body: string, domains: seq<string>)
    requires forall i :: 0 <= i < |domains| ==> |domains[i]| > 0
    ensures BodyCount(body, domains) > 0 <==>
      exists i :: 0 <= i < |domains| && Contains(Lower(body), Lower(domains[i]))
    decreases |domains|
  {
    if |domains| > 0 {
      CountOccurrencesPositive(body, domains[0]);
      var rest := domains[1..];
      assert forall i :: 0 <= i < |rest| ==> rest[i] == domains[i + 1];
      BodyCountPositive(body, rest);
    }
  }

  /** The sub-parts are scanned one after another, so splitting the list splits the count. */
  lemma {:induction false} PartsCountAppend(a: seq<Part>, b: seq<Part>)
    ensures PartsCount(a + b) == PartsCount(a) + PartsCount(b)
    decreases |a|
  {
    if |a| == 0 {
      assert a + b == b;
    } else {
      assert (a + b)[1..] == a[1..] + b;
      PartsCountAppend(a[1..], b);
    }
  }

  /** A list of sub-parts adds to the counter exactly when one of its parts does. */
  lemma {:induction false} PartsCountPositive(ps: seq<Part>)
    ensures PartsCount(ps) > 0 <==> exists i :: 0 <= i < |ps| && PartCount(ps[i]) > 0
    decreases |ps|
  {
    if |ps| > 0 {
      var rest := ps[1..];
      PartsCountPositive(rest);
      if PartsCount(rest) > 0 {
        var j :| 0 <= j < |rest| && PartCount(rest[j]) > 0;
        assert ps[j + 1] == rest[j];
      }
      if exists i :: 0 <= i < |ps| && PartCount(ps[i]) > 0 {
        var i :| 0 <= i < |ps| && PartCount(ps[i]) > 0;
        if i > 0 {
          assert rest[i - 1] == ps[i];
        }
      }
    }
  }
}
