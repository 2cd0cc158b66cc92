/**
 * The message-display script: `isProtectedLink` classifies a link by its
 * hostname against the table of URL-protection services, `scanMessage`
 * counts the protected links of a message, and the banner says how many
 * there are. The DOM is reduced to the sequence of the message's `href`s.
 */
module MessageScanner {
  import opened Options
  import opened Text
  import opened Urls
  import opened Background

  /** `PROTECTION_DOMAINS`, in source order: substrings that mark a protection service's hostname. */
  const ProtectionDomains: seq<string> := [
    "safelinks.protection.outlook.com",
    "urldefense.proofpoint.com",
    "urldefense.com",
    "mimecast",
    "barracuda",
    "linkprotect.cudasvc.com",
    "cisco",
    "iphmx.com",
    "protected.res.cisco.com",
    "checkpoint",
    "urlsand.net",
    "egress",
    "egressdefend.com",
    "symantec",
    "messagelabs",
    "broadcom",
    "sophos",
    "sandboxsafe.com",
    "trendmicro",
    "tmurl.net",
    "trustwave",
    "mailmarshal",
    "postoffice",
    "po.mx",
    "intermedia",
    "webscan.intermedia.net",
    "hornetsecurity",
    "atpurl.com",
    "opentext",
    "edgepilot",
    "websense",
    "fireeye",
    "trellix",
    "mandiant",
    "urlprotect",
    "linkprotect",
    "urldefense",
    "safeurl",
    "securemail",
    "maildefense"
  ]

  /** A lower-cased hostname that includes some table entry. */
  predicate IsProtectedHost(host: string) {
    ContainsAny(host, ProtectionDomains)
  }

  /**
   * `isProtectedLink(url)`: the hostname, lower-cased, includes some table
   * entry; a URL that does not parse is not protected.
   */
  function IsProtectedLink(parse: Parser, url: string): (r: bool)
    ensures parse(url).None? ==> !r
  {
    match parse(url)
    case None => false
    case Some(u) => IsProtectedHost(Lower(u.hostname))
  }

  /** An occurrence of a table entry anywhere in the lower-cased hostname makes the link protected. */
  lemma ProtectedLinkAt(parse: Parser, url: string, i: nat, k: nat)
    requires parse(url).Some?
    requires i < |ProtectionDomains| && OccursAt(Lower(parse(url).value.hostname), ProtectionDomains[i], k)
    ensures IsProtectedLink(parse, url)
  {
    OccursContains(Lower(parse(url).value.hostname), ProtectionDomains[i], k);
  }

  /** A protected link shows which table entry occurs in its lower-cased hostname, and where. */
  lemma ProtectedLinkWitness(parse: Parser, url: string) returns (i: nat, k: nat)
    requires IsProtectedLink(parse, url)
    ensures parse(url).Some?
    ensures i < |ProtectionDomains| && OccursAt(Lower(parse(url).value.hostname), ProtectionDomains[i], k)
  {
    var host := Lower(parse(url).value.hostname);
    i :| 0 <= i < |ProtectionDomains| && Contains(host, ProtectionDomains[i]);
    k := ContainsWitness(host, ProtectionDomains[i]);
  }

  /** Classification looks at the hostname only through its lower-cased form, so case never matters. */
  lemma ProtectedLinkIgnoresCase(parse: Parser, a: string, b: string)
    requires parse(a).Some? && parse(b).Some?
    requires Lower(parse(a).value.hostname) == Lower(parse(b).value.hostname)
    ensures IsProtectedLink(parse, a) == IsProtectedLink(parse, b)
  {
  }

  // ---- Every hostname the context-menu decoder acts on is in the table ----

  /** The table vouches for a hostname test: each alternative of `AnyOf`, or some conjunct of `AllOf`, is a table entry. */
  predicate Vouches(table: seq<string>, t: HostTest) {
    match t
    case AnyOf(ns) => forall j :: 0 <= j < |ns| ==> ns[j] in table
    case AllOf(ns) => exists j :: 0 <= j < |ns| && ns[j] in table
  }

  /** A hostname test the table vouches for never holds of a hostname outside the table's reach. */
  lemma VouchedMatch(table: seq<string>, t: HostTest, host: string)
    requires Vouches(table, t) && HostMatches(t, host)
    ensures ContainsAny(host, table)
  {
    match t
    case AnyOf(ns) =>
      var i :| 0 <= i < |ns| && Contains(host, ns[i]);
      var k :| 0 <= k < |table| && table[k] == ns[i];
    case AllOf(ns) =>
      var j :| 0 <= j < |ns| && ns[j] in table;
      var k :| 0 <= k < |table| && table[k] == ns[j];
      assert Contains(host, table[k]);
  }

  /** Some rule of a vouched-for list matches only hostnames the table reaches. */
  lemma {:induction false} VouchedRules(table: seq<string>, rules: seq<VendorRule>, host: string)
    requires forall k :: 0 <= k < |rules| ==> Vouches(table, rules[k].test)
    requires AnyRuleMatches(rules, host)
    ensures ContainsAny(host, table)
    decreases |rules|
  {
    if HostMatches(rules[0].test, host) {
      VouchedMatch(table, rules[0].test, host);
    } else {
      assert forall k :: 0 <= k < |rules| - 1 ==> rules[1..][k] == rules[k + 1];
      VouchedRules(table, rules[1..], host);
    }
  }

  /** `ns[j..]` sit in `table` at the positions `at[j..]`. */
  predicate PlacedFrom(table: seq<string>, ns: seq<string>, at: seq<nat>, j: nat)
    decreases |ns| - j
  {
    j >= |ns| || (j < |at| && at[j] < |table| && table[at[j]] == ns[j] && PlacedFrom(table, ns, at, j + 1))
  }

  /** Placed needles are table entries. */
  lemma {:induction false} PlacedInTable(table: seq<string>, ns: seq<string>, at: seq<nat>, j: nat)
    requires PlacedFrom(table, ns, at, j)
    ensures forall i :: j <= i < |ns| ==> ns[i] in table
    decreases |ns| - j
  {
    if j < |ns| {
      PlacedInTable(table, ns, at, j + 1);
      assert table[at[j]] == ns[j];
    }
  }

  /** An `AnyOf` test whose alternatives all sit in the table at the given positions is vouched for. */
  lemma VouchAny(table: seq<string>, ns: seq<string>, at: seq<nat>)
    requires PlacedFrom(table, ns, at, 0)
    ensures Vouches(table, AnyOf(ns))
  {
    PlacedInTable(table, ns, at, 0);
  }

  /** The Mimecast rule: its `mimecast` conjunct is a table entry. */
  lemma VouchMimecast()
    ensures Vouches(ProtectionDomains, VendorRules[0].test)
  {
    assert VendorRules[0].test.needles[1] == ProtectionDomains[3];
  }

  // One lemma per `AnyOf` rule: the positions of its alternatives in the table.

  lemma VouchBarracuda()
    ensures Vouches(ProtectionDomains, VendorRules[1].test)
  {
    VouchAny(ProtectionDomains, VendorRules[1].test.needles, [4, 5]);
  }

  lemma VouchCisco()
    ensures Vouches(ProtectionDomains, VendorRules[2].test)
  {
    VouchAny(ProtectionDomains, VendorRules[2].test.needles, [6, 7, 8]);
  }

  lemma VouchCheckPoint()
    ensures Vouches(ProtectionDomains, VendorRules[3].test)
  {
    VouchAny(ProtectionDomains, VendorRules[3].test.needles, [9, 10]);
  }

  lemma VouchEgress()
    ensures Vouches(ProtectionDomains, VendorRules[4].test)
  {
    VouchAny(ProtectionDomains, VendorRules[4].test.needles, [11, 12]);
  }

  lemma VouchSymantec()
    ensures Vouches(ProtectionDomains, VendorRules[5].test)
  {
    VouchAny(ProtectionDomains, VendorRules[5].test.needles, [13, 14, 15]);
  }

  lemma VouchSophos()
    ensures Vouches(ProtectionDomains, VendorRules[6].test)
  {
    VouchAny(ProtectionDomains, VendorRules[6].test.needles, [16, 17]);
  }

  lemma VouchTrendMicro()
    ensures Vouches(ProtectionDomains, VendorRules[7].test)
  {
    VouchAny(ProtectionDomains, VendorRules[7].test.needles, [18, 19]);
  }

  lemma VouchTrustwave()
    ensures Vouches(ProtectionDomains, VendorRules[8].test)
  {
    VouchAny(ProtectionDomains, VendorRules[8].test.needles, [20, 21]);
  }

  lemma VouchPostOffice()
    ensures Vouches(ProtectionDomains, VendorRules[9].test)
  {
    VouchAny(ProtectionDomains, VendorRules[9].test.needles, [22, 23]);
  }

  lemma VouchIntermedia()
    ensures Vouches(ProtectionDomains, VendorRules[10].test)
  {
    VouchAny(ProtectionDomains, VendorRules[10].test.needles, [24, 25]);
  }

  lemma VouchHornetsecurity()
    ensures Vouches(ProtectionDomains, VendorRules[11].test)
  {
    VouchAny(ProtectionDomains, VendorRules[11].test.needles, [26, 27]);
  }

  lemma VouchOpenText()
    ensures Vouches(ProtectionDomains, VendorRules[12].test)
  {
    VouchAny(ProtectionDomains, VendorRules[12].test.needles, [28, 29, 30]);
  }

  lemma VouchFireEye()
    ensures Vouches(ProtectionDomains, VendorRules[13].test)
  {
    VouchAny(ProtectionDomains, VendorRules[13].test.needles, [31, 32, 33]);
  }

  lemma VouchGeneric()
    ensures Vouches(ProtectionDomains, VendorRules[14].test)
  {
    VouchAny(ProtectionDomains, VendorRules[14].test.needles, [34, 35, 36, 37, 38, 39]);
  }

  /** The scanner's table vouches for every vendor rule of the context-menu decoder. */
  lemma TableVouchesForVendorRules()
    ensures forall k :: 0 <= k < |VendorRules| ==> Vouches(ProtectionDomains, VendorRules[k].test)
  {
    VouchMimecast();
    VouchBarracuda();
    VouchCisco();
    VouchCheckPoint();
    VouchEgress();
    VouchSymantec();
    VouchSophos();
    VouchTrendMicro();
    VouchTrustwave();
    VouchPostOffice();
    VouchIntermedia();
    VouchHornetsecurity();
    VouchOpenText();
    VouchFireEye();
    VouchGeneric();
    forall k | 0 <= k < |VendorRules|
      ensures Vouches(ProtectionDomains, VendorRules[k].test)
    {
      assert k == 0 || k == 1 || k == 2 || k == 3 || k == 4 || k == 5 || k == 6 || k == 7 ||
             k == 8 || k == 9 || k == 10 || k == 11 || k == 12 || k == 13 || k == 14;
    }
  }

  /** A hostname the decoder returns a URL for is a Safe Links, a Proofpoint, or a vendor-rule hostname. */
  lemma DecodedHostKinds(u: Url)
    requires Deobfuscate(Some(u)).Some?
    ensures var host := Lower(u.hostname);
      Contains(host, SafeLinksNeedle) || IsProofpointHost(host) || AnyRuleMatches(VendorRules, host)
  {
    var host := Lower(u.hostname);
    if !Contains(host, SafeLinksNeedle) && !IsProofpointHost(host) {
      assert SafeLinksStage(u, host) == FallThrough;
      assert ProofpointStage(u, host) == FallThrough;
      assert TryVendorRules(VendorRules, u, host).Some?;
    }
  }

  /** The table entry at index `i`, once contained, makes the hostname protected. */
  lemma EntryContained(host: string, i: nat)
    requires i < |ProtectionDomains| && Contains(host, ProtectionDomains[i])
    ensures IsProtectedHost(host)
  {
  }

  /** Safe Links and Proofpoint hostnames are protected: their needles are the table's first three entries. */
  lemma FixedStagesProtected(host: string)
    requires Contains(host, SafeLinksNeedle) || IsProofpointHost(host)
    ensures IsProtectedHost(host)
  {
    if Contains(host, SafeLinksNeedle) {
      assert ProtectionDomains[0] == SafeLinksNeedle;
      EntryContained(host, 0);
    } else if Contains(host, "urldefense.proofpoint.com") {
      assert ProtectionDomains[1] == "urldefense.proofpoint.com";
      EntryContained(host, 1);
    } else {
      assert ProtectionDomains[2] == "urldefense.com";
      EntryContained(host, 2);
    }
  }

  /** A hostname some vendor rule matches is protected. */
  lemma VendorHostProtected(host: string)
    requires AnyRuleMatches(VendorRules, host)
    ensures IsProtectedHost(host)
  {
    TableVouchesForVendorRules();
    VouchedRules(ProtectionDomains, VendorRules, host);
  }

  /**
   * Whatever hostname makes the decoder return a URL is classified as
   * protected: the Safe Links and Proofpoint needles and every vendor
   * rule's needles are table entries.
   */
  lemma DeobfuscatedIsProtected(u: Url)
    requires Deobfuscate(Some(u)).Some?
    ensures IsProtectedHost(Lower(u.hostname))
  {
    var host := Lower(u.hostname);
    DecodedHostKinds(u);
    if Contains(host, SafeLinksNeedle) || IsProofpointHost(host) {
      FixedStagesProtected(host);
    } else {
      VendorHostProtected(host);
    }
  }

  /** A link the context-menu command can decode is a link the scanner counts. */
  lemma DeobfuscateUrlIsProtected(parse: Parser, url: string)
    requires DeobfuscateUrl(parse, url).Some?
    ensures IsProtectedLink(parse, url)
  {
    DeobfuscatedIsProtected(parse(url).value);
  }

  // ---- scanMessage ----

  /** The number of protected links among `hrefs`, counted from the last one back. */
  function ProtectedCount(parse: Parser, hrefs: seq<string>): (r: nat)
    ensures r <= |hrefs|
    decreases |hrefs|
  {
    if |hrefs| == 0 then 0
    else ProtectedCount(parse, hrefs[..|hrefs| - 1]) + (if IsProtectedLink(parse, hrefs[|hrefs| - 1]) then 1 else 0)
  }

  /** The count is zero exactly when no link is protected. */
  lemma {:induction false} ProtectedCountZero(parse: Parser, hrefs: seq<string>)
    ensures ProtectedCount(parse, hrefs) == 0 <==> forall i :: 0 <= i < |hrefs| ==> !IsProtectedLink(parse, hrefs[i])
    decreases |hrefs|
  {
    if |hrefs| > 0 {
      var n := |hrefs| - 1;
      var front := hrefs[..n];
      ProtectedCountZero(parse, front);
      assert forall i :: 0 <= i < n ==> front[i] == hrefs[i];
    }
  }

  /** The count equals the number of links exactly when every link is protected. */
  lemma {:induction false} ProtectedCountFull(parse: Parser, hrefs: seq<string>)
    ensures ProtectedCount(parse, hrefs) == |hrefs| <==> forall i :: 0 <= i < |hrefs| ==> IsProtectedLink(parse, hrefs[i])
    decreases |hrefs|
  {
    if |hrefs| > 0 {
      var n := |hrefs| - 1;
      var front := hrefs[..n];
      ProtectedCountFull(parse, front);
      assert forall i :: 0 <= i < n ==> front[i] == hrefs[i];
    }
  }

  /** The indices of the protected links. */
  function ProtectedIndices(parse: Parser, hrefs: seq<string>, n: nat): set<nat>
    requires n <= |hrefs|
  {
    set i: nat | i < n && IsProtectedLink(parse, hrefs[i])
  }

  /** Extending the range by one position adds that position exactly when its link is protected. */
  lemma IndicesStep(parse: Parser, hrefs: seq<string>, n: nat)
    requires n < |hrefs|
    ensures ProtectedIndices(parse, hrefs, n + 1) ==
      ProtectedIndices(parse, hrefs, n) + (if IsProtectedLink(parse, hrefs[n]) then {n} else {})
    ensures n !in ProtectedIndices(parse, hrefs, n)
  {
  }

  /** The indices below `n` depend only on the first `n` links. */
  lemma IndicesPrefix(parse: Parser, hrefs: seq<string>, n: nat)
    requires n <= |hrefs|
    ensures ProtectedIndices(parse, hrefs[..n], n) == ProtectedIndices(parse, hrefs, n)
  {
  }

  /** The count is the number of positions holding a protected link. */
  lemma {:induction false} ProtectedCountIsCardinality(parse: Parser, hrefs: seq<string>)
    ensures ProtectedCount(parse, hrefs) == |ProtectedIndices(parse, hrefs, |hrefs|)|
    decreases |hrefs|
  {
    if |hrefs| > 0 {
      var n := |hrefs| - 1;
      var front := hrefs[..n];
      ProtectedCountIsCardinality(parse, front);
      IndicesPrefix(parse, hrefs, n);
      IndicesStep(parse, hrefs, n);
      var below := ProtectedIndices(parse, hrefs, n);
      var here := if IsProtectedLink(parse, hrefs[n]) then 1 else 0;
      assert ProtectedCount(parse, hrefs) == ProtectedCount(parse, front) + here;
      assert |ProtectedIndices(parse, hrefs, n + 1)| == |below| + here;
    }
  }

  /** Counting two runs of links adds their counts. */
  lemma {:induction false} ProtectedCountAppend(parse: Parser, a: seq<string>, b: seq<string>)
    ensures ProtectedCount(parse, a + b) == ProtectedCount(parse, a) + ProtectedCount(parse, b)
    decreases |b|
  {
    if |b| > 0 {
      var n := |b| - 1;
      assert (a + b)[..|a + b| - 1] == a + b[..n];
      ProtectedCountAppend(parse, a, b[..n]);
    } else {
      assert a + b == a;
    }
  }

  /** `scanMessage`: one pass over the links, counting the protected ones. */
  method ScanMessage(parse: Parser, hrefs: seq<string>) returns (count: nat)
    ensures count == ProtectedCount(parse, hrefs)
  {
    count := 0;
    var i := 0;
    while i < |hrefs|
      invariant i <= |hrefs|
      invariant count == ProtectedCount(parse, hrefs[..i])
    {
      assert hrefs[..i + 1][..i] == hrefs[..i];
      if IsProtectedLink(parse, hrefs[i]) {
        count := count + 1;
      }
      i := i + 1;
    }
    assert hrefs[..i] == hrefs;
  }

  // ---- The banner ----

  const BannerMiddle := " obfuscated link"
  const BannerTail := " detected in this message." + BannerHint
  const BannerHint := " Right-click any link and select \"Deobfuscate Link\" to see the real destination."

  /** The banner's text for `count` links. */
  function BannerText(count: nat): string {
    NatToString(count) + BannerMiddle + (if count > 1 then "s" else "") + BannerTail
  }

  /**
   * The text opens with the decimal count, which reads back as `count`, and
   * the word after it is "links" exactly when the count exceeds one.
   */
  lemma BannerTextShape(count: nat)
    ensures var t := BannerText(count); var d := NatToString(count);
      |d| + |BannerMiddle| < |t| &&
      t[..|d|] == d && DigitsValue(t[..|d|]) == count && t[|d|] == ' ' &&
      t[|d|..|d| + |BannerMiddle|] == BannerMiddle &&
      (t[|d| + |BannerMiddle|] == 's' <==> count > 1)
  {
    var t := BannerText(count);
    var d := NatToString(count);
    var p := if count > 1 then "s" else "";
    assert t == d + BannerMiddle + (p + BannerTail);
    assert t[..|d|] == d;
    assert t[|d|..|d| + |BannerMiddle|] == BannerMiddle;
    assert t[|d| + |BannerMiddle|] == (p + BannerTail)[0];
    if count <= 1 {
      assert p + BannerTail == BannerTail;
    }
    NatToStringRoundTrip(count);
  }

  /** The banner a message gets, if any: only a message with a protected link gets one. */
  function MessageBanner(parse: Parser, hrefs: seq<string>): (r: Option<string>)
    ensures r.Some? <==> exists i :: 0 <= i < |hrefs| && IsProtectedLink(parse, hrefs[i])
    ensures r.Some? ==> r.value == BannerText(|ProtectedIndices(parse, hrefs, |hrefs|)|)
  {
    var count := ProtectedCount(parse, hrefs);
    ProtectedCountIsCardinality(parse, hrefs);
    ProtectedCountZero(parse, hrefs);
    if count > 0 then Some(BannerText(count)) else None
  }
}
