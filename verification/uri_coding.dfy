/**
 * Percent-decoding as ECMAScript `decodeURIComponent` performs it (ECMA-262
 * section 19.2.6, the Decode operation with an empty reserved set) and the
 * matching encoder `encodeURIComponent`. Escapes are read as UTF-8 octets
 * (RFC 3986 section 2.1); a malformed escape or an ill-formed UTF-8 sequence
 * is the URIError that the scripts see as an exception, here `None`.
 */
module UriCoding {
  import opened Options
  import opened Text

  predicate IsHexDigit(c: char) {
    '0' <= c <= '9' || 'a' <= c <= 'f' || 'A' <= c <= 'F'
  }

  function HexValue(c: char): (v: nat)
    requires IsHexDigit(c)
    ensures v < 16
  {
    if '0' <= c <= '9' then c as int - '0' as int
    else if 'a' <= c <= 'f' then c as int - 'a' as int + 10
    else c as int - 'A' as int + 10
  }

  /** The upper-case hex digit that `encodeURIComponent` writes for `v`. */
  function HexChar(v: nat): (c: char)
    requires v < 16
    ensures IsHexDigit(c) && HexValue(c) == v
  {
    if v < 10 then ('0' as int + v) as char else ('A' as int + v - 10) as char
  }

  /** The octet written `%XY` at the start of `s`, if `s` starts with one. */
  function LeadingOctet(s: string): Option<Byte> {
    if |s| >= 3 && s[0] == '%' && IsHexDigit(s[1]) && IsHexDigit(s[2])
    then Some(HexValue(s[1]) * 16 + HexValue(s[2]))
    else None
  }

  /** `n` consecutive `%XY` octets at the start of `s`. */
  function LeadingOctets(s: string, n: nat): (r: Option<seq<Byte>>)
    ensures r.Some? ==> |r.value| == n && 3 * n <= |s|
    ensures r.Some? && n > 0 ==> LeadingOctet(s) == Some(r.value[0])
  {
    if n == 0 then Some([])
    else
      match LeadingOctet(s)
      case None => None
      case Some(b) =>
        match LeadingOctets(s[3..], n - 1)
        case None => None
        case Some(bs) => Some([b] + bs)
  }

  /** Leading one bits of an octet: in UTF-8, the length of the sequence it starts. */
  function LeadingOnes(b: Byte): nat {
    if b < 0x80 then 0
    else if b < 0xC0 then 1
    else if b < 0xE0 then 2
    else if b < 0xF0 then 3
    else if b < 0xF8 then 4
    else 5
  }

  predicate IsContinuation(b: Byte) {
    0x80 <= b < 0xC0
  }

  /** A Unicode scalar value: a code point that is not a surrogate. */
  predicate IsScalar(cp: int) {
    0 <= cp < 0xD800 || 0xE000 <= cp < 0x110000
  }

  /** The smallest code point that needs an `n`-octet UTF-8 sequence. */
  function LeastForLength(n: nat): int {
    if n <= 1 then 0 else if n == 2 then 0x80 else if n == 3 then 0x800 else 0x10000
  }

  /**
   * The character a 2-, 3- or 4-octet sequence encodes, when it is well formed
   * UTF-8 (Table 3-7 of the Unicode Standard): continuation octets only after the
   * first, no overlong form, no surrogate, nothing above U+10FFFF.
   */
  function DecodeUtf8Sequence(bs: seq<Byte>): (r: Option<char>)
    requires 2 <= |bs| <= 4 && LeadingOnes(bs[0]) == |bs|
    ensures r.Some? ==> LeastForLength(|bs|) <= r.value as int
  {
    if !(forall i :: 1 <= i < |bs| ==> IsContinuation(bs[i])) then None
    else
      var cp := SequenceValue(bs);
      if LeastForLength(|bs|) <= cp && IsScalar(cp) then Some(cp as char) else None
  }

  /** The code point bits carried by a sequence whose first octet announces its length. */
  function SequenceValue(bs: seq<Byte>): int
    requires 2 <= |bs| <= 4
  {
    var b0, b1 := bs[0] as int, bs[1] as int;
    if |bs| == 2 then (b0 - 0xC0) * 64 + (b1 - 0x80)
    else if |bs| == 3 then (b0 - 0xE0) * 4096 + (b1 - 0x80) * 64 + (bs[2] as int - 0x80)
    else (b0 - 0xF0) * 262144 + (b1 - 0x80) * 4096 + (bs[2] as int - 0x80) * 64 + (bs[3] as int - 0x80)
  }

  function Prepend(c: char, r: Option<string>): Option<string> {
    match r
    case Some(t) => Some([c] + t)
    case None => None
  }

  /**
   * `decodeURIComponent(s)`; `None` where the script would throw URIError.
   * A decoded string is never longer than its input, is empty only for empty
   * input, and a string without `%` decodes to itself.
   */
  function DecodeURIComponent(s: string): (r: Option<string>)
    ensures r.Some? ==> |r.value| <= |s|
    ensures r.Some? && s != "" ==> r.value != ""
    ensures (forall i :: 0 <= i < |s| ==> s[i] != '%') ==> r == Some(s)
    decreases |s|
  {
    if |s| == 0 then Some("")
    else if s[0] != '%' then
      assert [s[0]] + s[1..] == s;
      Prepend(s[0], DecodeURIComponent(s[1..]))
    else
      match LeadingEscape(s)
      case None => None
      case Some(e) => Prepend(e.0, DecodeURIComponent(s[e.1..]))
  }

  /**
   * The character that the escapes at the start of `s` stand for, with the
   * number of characters they take: one `%XY` for an ASCII octet, else as many
   * as the first octet announces, forming well-formed UTF-8. `None` is a URIError.
   */
  function LeadingEscape(s: string): (r: Option<(char, nat)>)
    ensures r.Some? ==> 3 <= r.value.1 <= |s|
  {
    match LeadingOctet(s)
    case None => None
    case Some(b) =>
      var n := LeadingOnes(b);
      if n == 0 then Some((b as char, 3))
      else if n == 1 || n > 4 then None
      else
        match LeadingOctets(s, n)
        case None => None
        case Some(bs) =>
          match DecodeUtf8Sequence(bs)
          case None => None
          case Some(c) => Some((c, 3 * n))
  }

  /** `r` with `a` in front of the decoded text, failure staying failure. */
  function PrependAll(a: string, r: Option<string>): Option<string> {
    match r
    case Some(t) => Some(a + t)
    case None => None
  }

  /** A prefix without `%` passes through decoding unchanged. */
  lemma {:induction false} DecodeOfPlainPrefix(a: string, b: string)
    requires forall i :: 0 <= i < |a| ==> a[i] != '%'
    ensures DecodeURIComponent(a + b) == PrependAll(a, DecodeURIComponent(b))
    decreases |a|
  {
    if |a| == 0 {
      assert a + b == b;
      match DecodeURIComponent(b)
      case Some(t) => assert a + t == t;
      case None =>
    } else {
      var ab := a + b;
      assert ab[0] == a[0] != '%';
      assert ab[1..] == a[1..] + b;
      assert DecodeURIComponent(ab) == Prepend(a[0], DecodeURIComponent(a[1..] + b));
      DecodeOfPlainPrefix(a[1..], b);
      match DecodeURIComponent(b)
      case Some(t) => ConsAppend(a, t);
      case None =>
    }
  }

  lemma ConsAppend(a: string, t: string)
    requires |a| > 0
    ensures [a[0]] + (a[1..] + t) == a + t
  {
    assert a == [a[0]] + a[1..];
  }

  // ---- Encoding ----

  /** The UTF-8 octets of a character (RFC 3629 section 3). */
  function Utf8Encode(c: char): (bs: seq<Byte>)
    ensures 1 <= |bs| <= 4
  {
    var cp := c as int;
    if cp < 0x80 then [cp]
    else if cp < 0x800 then [0xC0 + cp / 64, 0x80 + cp % 64]
    else if cp < 0x10000 then [0xE0 + cp / 4096, 0x80 + (cp / 64) % 64, 0x80 + cp % 64]
    else [0xF0 + cp / 262144, 0x80 + (cp / 4096) % 64, 0x80 + (cp / 64) % 64, 0x80 + cp % 64]
  }

  /** Each octet written as `%XY` with upper-case hex digits. */
  function EscapeOctets(bs: seq<Byte>): (r: string)
    ensures |r| == 3 * |bs|
  {
    if |bs| == 0 then "" else ['%', HexChar(bs[0] / 16), HexChar(bs[0] % 16)] + EscapeOctets(bs[1..])
  }

  /** Writes the characters `keep` accepts as they are and every other one as escaped UTF-8. */
  function PercentEncode(s: string, keep: char -> bool): string {
    if |s| == 0 then ""
    else (if keep(s[0]) then [s[0]] else EscapeOctets(Utf8Encode(s[0]))) + PercentEncode(s[1..], keep)
  }

  /** The characters `encodeURIComponent` leaves alone (ECMA-262 section 19.2.6.4). */
  predicate IsUriUnreserved(c: char) {
    || 'a' <= c <= 'z' || 'A' <= c <= 'Z' || '0' <= c <= '9'
    || c == '-' || c == '_' || c == '.' || c == '!' || c == '~' || c == '*' || c == '\'' || c == '(' || c == ')'
  }

  /** `encodeURIComponent(s)`; it cannot fail here because a Dafny string holds no lone surrogate. */
  function EncodeURIComponent(s: string): string {
    PercentEncode(s, IsUriUnreserved)
  }

  // ---- Round trip ----

  lemma {:induction false} LeadingOctetsOfEscapes(bs: seq<Byte>, t: string)
    ensures LeadingOctets(EscapeOctets(bs) + t, |bs|) == Some(bs)
  {
    if |bs| > 0 {
      var e := EscapeOctets(bs) + t;
      assert e[..3] == ['%', HexChar(bs[0] / 16), HexChar(bs[0] % 16)];
      assert LeadingOctet(e) == Some(bs[0]);
      assert e[3..] == EscapeOctets(bs[1..]) + t;
      LeadingOctetsOfEscapes(bs[1..], t);
      assert [bs[0]] + bs[1..] == bs;
    }
  }

  /** UTF-8 decoding inverts UTF-8 encoding for every character. */
  lemma Utf8RoundTrip(c: char)
    ensures |Utf8Encode(c)| == 1 ==> Utf8Encode(c)[0] == c as int
    ensures |Utf8Encode(c)| >= 2 ==>
      LeadingOnes(Utf8Encode(c)[0]) == |Utf8Encode(c)| && DecodeUtf8Sequence(Utf8Encode(c)) == Some(c)
  {
    var cp := c as int;
    var bs := Utf8Encode(c);
    if 0x80 <= cp < 0x800 {
      Utf8TwoBits(cp);
    } else if 0x800 <= cp < 0x10000 {
      Utf8ThreeBits(cp);
    } else if 0x10000 <= cp {
      Utf8FourBits(cp);
    }
  }

  lemma Utf8TwoBits(cp: int)
    requires 0x80 <= cp < 0x800
    ensures (cp / 64) * 64 + cp % 64 == cp && 2 <= cp / 64 < 32
  {
  }

  lemma Utf8ThreeBits(cp: int)
    requires 0x800 <= cp < 0x10000
    ensures (cp / 4096) * 4096 + ((cp / 64) % 64) * 64 + cp % 64 == cp && cp / 4096 < 16
  {
  }

  lemma Utf8FourBits(cp: int)
    requires 0x10000 <= cp < 0x110000
    ensures (cp / 262144) * 262144 + ((cp / 4096) % 64) * 4096 + ((cp / 64) % 64) * 64 + cp % 64 == cp
    ensures cp / 262144 < 8
  {
  }

  /** One escaped character followed by anything decodes to that character followed by the rest. */
  lemma DecodeEscapedChar(c: char, t: string)
    ensures DecodeURIComponent(EscapeOctets(Utf8Encode(c)) + t) == Prepend(c, DecodeURIComponent(t))
  {
    var bs := Utf8Encode(c);
    var e := EscapeOctets(bs) + t;
    Utf8RoundTrip(c);
    LeadingOctetsOfEscapes(bs, t);
    assert e[0] == '%';
    assert e[3 * |bs|..] == t;
    if |bs| == 1 {
      assert LeadingOctet(e) == Some(bs[0]);
      assert e[3..] == t;
    }
  }

  /** A keep-set without `%` makes percent-encoding exactly invertible by `decodeURIComponent`. */
  lemma {:induction false} PercentEncodeRoundTrip(s: string, keep: char -> bool)
    requires !keep('%')
    ensures DecodeURIComponent(PercentEncode(s, keep)) == Some(s)
  {
    if |s| > 0 {
      var rest := PercentEncode(s[1..], keep);
      PercentEncodeRoundTrip(s[1..], keep);
      if keep(s[0]) {
        assert PercentEncode(s, keep) == [s[0]] + rest;
        assert ([s[0]] + rest)[1..] == rest;
      } else {
        DecodeEscapedChar(s[0], rest);
      }
      assert [s[0]] + s[1..] == s;
    }
  }

  /** `decodeURIComponent(encodeURIComponent(s)) === s` for every string. */
  lemma EncodeURIComponentRoundTrip(s: string)
    ensures DecodeURIComponent(EncodeURIComponent(s)) == Some(s)
  {
    PercentEncodeRoundTrip(s, IsUriUnreserved);
  }
}
