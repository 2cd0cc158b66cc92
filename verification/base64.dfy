/**
 * `atob` as the HTML standard defines it: the forgiving-base64 decode of the
 * WHATWG Infra standard over the alphabet of RFC 4648 section 4, returning a
 * binary string (one character per octet). Also an RFC 4648 encoder, over the
 * standard (section 4) or the URL-safe (section 5) alphabet, with or without
 * padding, used to state round trips.
 */
module Base64 {
  import opened Options
  import opened Text

  /** ASCII whitespace as the Infra standard defines it: TAB, LF, FF, CR, SPACE. */
  predicate IsAsciiWhitespace(c: char) {
    c == '\t' || c == '\n' || c == '\U{C}' || c == '\r' || c == ' '
  }

  function RemoveAsciiWhitespace(s: string): (r: string)
    ensures forall i :: 0 <= i < |r| ==> !IsAsciiWhitespace(r[i])
    ensures (forall i :: 0 <= i < |s| ==> !IsAsciiWhitespace(s[i])) ==> r == s
  {
    if |s| == 0 then ""
    else
      assert [s[0]] + s[1..] == s;
      (if IsAsciiWhitespace(s[0]) then "" else [s[0]]) + RemoveAsciiWhitespace(s[1..])
  }

  /** A character of the standard alphabet (RFC 4648 section 4, Table 1). */
  predicate IsBase64Char(c: char) {
    'A' <= c <= 'Z' || 'a' <= c <= 'z' || '0' <= c <= '9' || c == '+' || c == '/'
  }

  function SextetValue(c: char): (v: nat)
    requires IsBase64Char(c)
    ensures v < 64
  {
    if 'A' <= c <= 'Z' then c as int - 'A' as int
    else if 'a' <= c <= 'z' then c as int - 'a' as int + 26
    else if '0' <= c <= '9' then c as int - '0' as int + 52
    else if c == '+' then 62
    else 63
  }

  /** The character for a sextet, in the standard alphabet or the URL-safe one (`-` and `_`). */
  function AlphabetChar(v: nat, urlSafe: bool): (c: char)
    requires v < 64
    ensures !urlSafe ==> IsBase64Char(c) && SextetValue(c) == v
    ensures c != '='
  {
    if v < 26 then ('A' as int + v) as char
    else if v < 52 then ('a' as int + v - 26) as char
    else if v < 62 then ('0' as int + v - 52) as char
    else if v == 62 then (if urlSafe then '-' else '+')
    else (if urlSafe then '_' else '/')
  }

  /** Step 2 of forgiving-base64 decode: drop one or two trailing `=`. */
  function StripPadding(d: string): string {
    if |d| >= 2 && d[|d| - 2..] == "==" then d[..|d| - 2]
    else if |d| >= 1 && d[|d| - 1] == '=' then d[..|d| - 1]
    else d
  }

  predicate AllBase64(d: string) {
    forall i :: 0 <= i < |d| ==> IsBase64Char(d[i])
  }

  /** The three octets carried by four sextets. */
  function DecodeQuad(c0: char, c1: char, c2: char, c3: char): seq<Byte>
    requires IsBase64Char(c0) && IsBase64Char(c1) && IsBase64Char(c2) && IsBase64Char(c3)
  {
    var v0, v1, v2 := SextetValue(c0), SextetValue(c1), SextetValue(c2);
    [v0 * 4 + v1 / 16, (v1 % 16) * 16 + v2 / 4, (v2 % 4) * 64 + SextetValue(c3)]
  }

  /** A trailing group of two or three sextets carries one or two octets. */
  function DecodeTail(d: string): seq<Byte>
    requires AllBase64(d) && (|d| == 0 || |d| == 2 || |d| == 3)
  {
    if |d| == 0 then []
    else
      var v0, v1 := SextetValue(d[0]), SextetValue(d[1]);
      if |d| == 2 then [v0 * 4 + v1 / 16]
      else [v0 * 4 + v1 / 16, (v1 % 16) * 16 + SextetValue(d[2]) / 4]
  }

  /** Octets carried by a run of sextets, four at a time. */
  function DecodeSextets(d: string): (r: seq<Byte>)
    requires AllBase64(d) && |d| % 4 != 1
    decreases |d|
  {
    if |d| < 4 then DecodeTail(d)
    else DecodeQuad(d[0], d[1], d[2], d[3]) + DecodeSextets(d[4..])
  }

  /** Forgiving-base64 decode; `None` is its failure. */
  function ForgivingDecode(s: string): Option<seq<Byte>> {
    var d := RemoveAsciiWhitespace(s);
    var data := if |d| % 4 == 0 then StripPadding(d) else d;
    if |data| % 4 == 1 || !AllBase64(data) then None
    else Some(DecodeSextets(data))
  }

  /** The binary string `atob` returns: octet `b` becomes the character U+00bb. */
  function Latin1(bs: seq<Byte>): (r: string)
    ensures |r| == |bs|
    ensures forall i :: 0 <= i < |bs| ==> r[i] as int == bs[i]
  {
    if |bs| == 0 then "" else [bs[0] as char] + Latin1(bs[1..])
  }

  /** `atob(s)`; `None` where it throws InvalidCharacterError. */
  function Atob(s: string): Option<string> {
    match ForgivingDecode(s)
    case Some(bs) => Some(Latin1(bs))
    case None => None
  }

  // ---- Encoding ----

  /** Four characters per three octets; a final group of one or two octets takes two or three, or four when padded. */
  function EncodedLength(n: nat, padded: bool): (k: nat)
    ensures padded ==> k % 4 == 0
    ensures !padded ==> k % 4 != 1
    ensures n >= 9 ==> k >= 12
  {
    4 * (n / 3) + (if n % 3 == 0 then 0 else if padded then 4 else n % 3 + 1)
  }

  lemma EncodedLengthStep(n: nat, padded: bool)
    requires n >= 3
    ensures EncodedLength(n, padded) == 4 + EncodedLength(n - 3, padded)
  {
    assert n / 3 == (n - 3) / 3 + 1;
    assert n % 3 == (n - 3) % 3;
  }

  /** RFC 4648 encoding of `bs`, with the URL-safe alphabet when `urlSafe`, with `=` padding when `padded`. */
  function Encode(bs: seq<Byte>, urlSafe: bool, padded: bool): (r: string)
    ensures |r| == EncodedLength(|bs|, padded)
    ensures !padded ==> forall i :: 0 <= i < |r| ==> r[i] != '='
    ensures !padded && !urlSafe ==> AllBase64(r)
    decreases |bs|
  {
    if |bs| < 3 then EncodeTail(bs, urlSafe, padded)
    else
      EncodedLengthStep(|bs|, padded);
      Group(bs[0], bs[1], bs[2], urlSafe) + Encode(bs[3..], urlSafe, padded)
  }

  /** The four characters for three octets. */
  function Group(b0: Byte, b1: Byte, b2: Byte, urlSafe: bool): (r: string)
    ensures |r| == 4 && forall i :: 0 <= i < 4 ==> r[i] != '='
    ensures !urlSafe ==> AllBase64(r)
  {
    [AlphabetChar(b0 / 4, urlSafe), AlphabetChar((b0 % 4) * 16 + b1 / 16, urlSafe),
     AlphabetChar((b1 % 16) * 4 + b2 / 64, urlSafe), AlphabetChar(b2 % 64, urlSafe)]
  }

  /** The characters for a final one or two octets: two or three, then `=` up to four when padded. */
  function EncodeTail(bs: seq<Byte>, urlSafe: bool, padded: bool): (r: string)
    requires |bs| < 3
    ensures |r| == EncodedLength(|bs|, padded)
    ensures !padded ==> forall i :: 0 <= i < |r| ==> r[i] != '='
    ensures !padded && !urlSafe ==> AllBase64(r)
  {
    if |bs| == 0 then ""
    else
      var b0 := bs[0] as int;
      if |bs| == 1 then
        [AlphabetChar(b0 / 4, urlSafe), AlphabetChar((b0 % 4) * 16, urlSafe)] + (if padded then "==" else "")
      else
        var b1 := bs[1] as int;
        [AlphabetChar(b0 / 4, urlSafe), AlphabetChar((b0 % 4) * 16 + b1 / 16, urlSafe),
         AlphabetChar((b1 % 16) * 4, urlSafe)] + (if padded then "=" else "")
  }

  /** The `=` characters padding adds for `n` input octets. */
  function Padding(n: nat): string {
    if n % 3 == 1 then "==" else if n % 3 == 2 then "=" else ""
  }

  /** A padded encoding is the unpadded one followed by the padding. */
  lemma {:induction false} EncodePadded(bs: seq<Byte>, urlSafe: bool)
    ensures Encode(bs, urlSafe, true) == Encode(bs, urlSafe, false) + Padding(|bs|)
    decreases |bs|
  {
    if |bs| >= 3 {
      var g := Group(bs[0], bs[1], bs[2], urlSafe);
      assert Encode(bs, urlSafe, true) == g + Encode(bs[3..], urlSafe, true);
      assert Encode(bs, urlSafe, false) == g + Encode(bs[3..], urlSafe, false);
      EncodePadded(bs[3..], urlSafe);
      assert Padding(|bs[3..]|) == Padding(|bs|);
    } else {
      EncodePaddedShort(bs, urlSafe);
    }
  }

  lemma EncodePaddedShort(bs: seq<Byte>, urlSafe: bool)
    requires |bs| < 3
    ensures Encode(bs, urlSafe, true) == Encode(bs, urlSafe, false) + Padding(|bs|)
  {
  }

  /** The sextets of a full group of three octets recombine to the octets. */
  lemma DecodeGroup(b0: int, b1: int, b2: int)
    requires 0 <= b0 < 256 && 0 <= b1 < 256 && 0 <= b2 < 256
    ensures var v0, v1, v2, v3 := b0 / 4, (b0 % 4) * 16 + b1 / 16, (b1 % 16) * 4 + b2 / 64, b2 % 64;
      v0 * 4 + v1 / 16 == b0 && (v1 % 16) * 16 + v2 / 4 == b1 && (v2 % 4) * 64 + v3 == b2
  {
  }

  /** The sextets of a final group of one or two octets recombine to them. */
  lemma DecodeShortGroup(b0: int, b1: int)
    requires 0 <= b0 < 256 && 0 <= b1 < 256
    ensures (b0 / 4) * 4 + ((b0 % 4) * 16) / 16 == b0
    ensures var v1, v2 := (b0 % 4) * 16 + b1 / 16, (b1 % 16) * 4;
      (b0 / 4) * 4 + v1 / 16 == b0 && (v1 % 16) * 16 + v2 / 4 == b1
  {
  }

  /** Decoding the sextets of an unpadded standard encoding gives back the octets. */
  lemma {:induction false} DecodeSextetsOfEncode(bs: seq<Byte>)
    ensures DecodeSextets(Encode(bs, false, false)) == bs
    decreases |bs|
  {
    if |bs| < 3 {
      DecodeOfTail(bs);
    } else {
      var g, rest := Group(bs[0], bs[1], bs[2], false), Encode(bs[3..], false, false);
      assert Encode(bs, false, false) == g + rest;
      DecodeSextetsAppend(g, rest);
      DecodeOfGroup(bs[0], bs[1], bs[2]);
      DecodeSextetsOfEncode(bs[3..]);
      assert DecodeSextets(g + rest) == [bs[0], bs[1], bs[2]] + bs[3..];
      assert bs == [bs[0], bs[1], bs[2]] + bs[3..];
    }
  }

  /** The four characters of a group decode to its three octets. */
  lemma DecodeOfGroup(b0: Byte, b1: Byte, b2: Byte)
    ensures var g := Group(b0, b1, b2, false); DecodeQuad(g[0], g[1], g[2], g[3]) == [b0, b1, b2]
  {
    var g := Group(b0, b1, b2, false);
    var v0, v1, v2, v3 := b0 / 4, (b0 % 4) * 16 + b1 / 16, (b1 % 16) * 4 + b2 / 64, b2 % 64;
    assert SextetValue(g[0]) == v0 && SextetValue(g[1]) == v1;
    assert SextetValue(g[2]) == v2 && SextetValue(g[3]) == v3;
    DecodeGroup(b0, b1, b2);
  }

  /** A final group of one or two octets decodes to them. */
  lemma DecodeOfTail(bs: seq<Byte>)
    requires |bs| < 3
    ensures DecodeSextets(Encode(bs, false, false)) == bs
  {
    assert Encode(bs, false, false) == EncodeTail(bs, false, false);
    if |bs| == 1 {
      assert bs == [bs[0]];
      DecodeOne(bs[0]);
    } else if |bs| == 2 {
      assert bs == [bs[0], bs[1]];
      DecodeTwo(bs[0], bs[1]);
    }
  }

  lemma DecodeOne(b0: Byte)
    ensures DecodeSextets(EncodeTail([b0], false, false)) == [b0]
  {
    var v0, v1 := b0 / 4, (b0 % 4) * 16;
    var c0, c1 := AlphabetChar(v0, false), AlphabetChar(v1, false);
    assert EncodeTail([b0], false, false) == [c0, c1];
    assert SextetValue(c0) == v0 && SextetValue(c1) == v1;
    DecodeShortGroup(b0, 0);
  }

  lemma DecodeTwo(b0: Byte, b1: Byte)
    ensures DecodeSextets(EncodeTail([b0, b1], false, false)) == [b0, b1]
  {
    var v0, v1, v2 := b0 / 4, (b0 % 4) * 16 + b1 / 16, (b1 % 16) * 4;
    var c0, c1, c2 := AlphabetChar(v0, false), AlphabetChar(v1, false), AlphabetChar(v2, false);
    assert EncodeTail([b0, b1], false, false) == [c0, c1, c2];
    assert SextetValue(c0) == v0 && SextetValue(c1) == v1 && SextetValue(c2) == v2;
    DecodeShortGroup(b0, b1);
  }

  /** Sextets are decoded four at a time, so a leading group decodes on its own. */
  lemma DecodeSextetsAppend(g: string, rest: string)
    requires |g| == 4 && AllBase64(g) && AllBase64(rest) && |rest| % 4 != 1
    ensures AllBase64(g + rest)
    ensures DecodeSextets(g + rest) == DecodeQuad(g[0], g[1], g[2], g[3]) + DecodeSextets(rest)
  {
    var d := g + rest;
    assert d[4..] == rest;
  }

  /** An encoding holds no ASCII whitespace, so `atob` has nothing to remove. */
  lemma NoWhitespaceInEncoding(bs: seq<Byte>)
    ensures RemoveAsciiWhitespace(Encode(bs, false, true)) == Encode(bs, false, true)
  {
    var e := Encode(bs, false, false);
    var p := Encode(bs, false, true);
    EncodePadded(bs, false);
    forall i | 0 <= i < |p| ensures !IsAsciiWhitespace(p[i]) {
      if i < |e| {
        assert p[i] == e[i] && IsBase64Char(e[i]);
      }
    }
  }

  /** Stripping the padding of a padded encoding leaves the unpadded one. */
  lemma StripPaddingOfEncode(bs: seq<Byte>)
    ensures StripPadding(Encode(bs, false, true)) == Encode(bs, false, false)
  {
    var e := Encode(bs, false, false);
    var p := Encode(bs, false, true);
    EncodePadded(bs, false);
    if |bs| % 3 == 1 {
      assert p[|p| - 2..] == "==";
      assert p[..|p| - 2] == e;
    } else if |bs| % 3 == 2 {
      assert p[|p| - 2] == e[|e| - 1] != '=';
      assert p[..|p| - 1] == e;
    } else {
      assert p == e;
      if |e| > 0 {
        assert e[|e| - 1] != '=';
      }
    }
  }

  /** `atob` inverts the padded standard encoding: `atob(btoa(x)) === x`. */
  lemma AtobOfEncode(bs: seq<Byte>)
    ensures Atob(Encode(bs, false, true)) == Some(Latin1(bs))
  {
    NoWhitespaceInEncoding(bs);
    StripPaddingOfEncode(bs);
    DecodeSextetsOfEncode(bs);
  }
}
