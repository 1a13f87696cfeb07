/**
  The percent-encoding of the `urlencoding` crate: a Rust `&str` is taken as its
  UTF-8 bytes, and every byte outside the unreserved set of section 2.3 of
  RFC 3986 (`A-Z a-z 0-9 - _ . ~`) is written as `%XX` with upper-case
  hexadecimal digits (section 2.1 of RFC 3986).
*/
module UrlEncoding {
  import opened Wrappers

  newtype Byte = b: int | 0 <= b < 256

  /** The UTF-8 encoding of one Unicode scalar value. */
  function Utf8(c: char): (bs: seq<Byte>)
    ensures 1 <= |bs| <= 4
    ensures |bs| == 1 <==> (c as int) < 0x80
    ensures |bs| == 1 ==> bs[0] as int == c as int
    ensures |bs| > 1 ==> forall i :: 0 <= i < |bs| ==> bs[i] >= 0x80
  {
    var cp := c as int;
    if cp < 0x80 then [cp as Byte]
    else if cp < 0x800 then [(0xC0 + cp / 0x40) as Byte, (0x80 + cp % 0x40) as Byte]
    else if cp < 0x1_0000 then
      [(0xE0 + cp / 0x1000) as Byte, (0x80 + cp / 0x40 % 0x40) as Byte, (0x80 + cp % 0x40) as Byte]
    else
      [(0xF0 + cp / 0x4_0000) as Byte, (0x80 + cp / 0x1000 % 0x40) as Byte,
       (0x80 + cp / 0x40 % 0x40) as Byte, (0x80 + cp % 0x40) as Byte]
  }

  /** The bytes of a Rust string: the UTF-8 encodings of its characters, in order. */
  function Utf8Bytes(s: string): seq<Byte> {
    if s == [] then [] else Utf8(s[0]) + Utf8Bytes(s[1..])
  }

  /** How many bytes a UTF-8 sequence takes, read off its first byte. */
  function LeadLength(b: Byte): nat {
    if b < 0x80 then 1 else if b < 0xE0 then 2 else if b < 0xF0 then 3 else 4
  }

  /** The code point a UTF-8 form of one to four bytes stands for: the payload bits, in order. */
  function Utf8Decode(bs: seq<Byte>): int
    requires 1 <= |bs| <= 4
  {
    if |bs| == 1 then bs[0] as int
    else if |bs| == 2 then (bs[0] as int - 0xC0) * 0x40 + (bs[1] as int - 0x80)
    else if |bs| == 3 then
      ((bs[0] as int - 0xE0) * 0x40 + (bs[1] as int - 0x80)) * 0x40 + (bs[2] as int - 0x80)
    else
      (((bs[0] as int - 0xF0) * 0x40 + (bs[1] as int - 0x80)) * 0x40 + (bs[2] as int - 0x80)) * 0x40
        + (bs[3] as int - 0x80)
  }

  lemma SixBitSplit(n: nat)
    ensures n == n / 0x40 * 0x40 + n % 0x40
    ensures n / 0x40 / 0x40 == n / 0x1000 && n / 0x1000 / 0x40 == n / 0x4_0000
  {
  }

  lemma ThreeSixBitGroups(n: nat)
    ensures n == (n / 0x1000 * 0x40 + n / 0x40 % 0x40) * 0x40 + n % 0x40
  {
    SixBitSplit(n / 0x40);
    SixBitSplit(n);
  }

  lemma FourSixBitGroups(n: nat)
    ensures n == ((n / 0x4_0000 * 0x40 + n / 0x1000 % 0x40) * 0x40 + n / 0x40 % 0x40) * 0x40 + n % 0x40
  {
    SixBitSplit(n / 0x1000);
    ThreeSixBitGroups(n);
  }

  /** Decoding a character's UTF-8 form gives back its code point. */
  lemma Utf8Decodes(c: char)
    ensures Utf8Decode(Utf8(c)) == c as int
  {
    var cp := c as int;
    if 0x80 <= cp < 0x800 {
      SixBitSplit(cp);
    } else if 0x800 <= cp < 0x1_0000 {
      ThreeSixBitGroups(cp);
    } else if 0x1_0000 <= cp {
      FourSixBitGroups(cp);
    }
  }

  /** The first byte of a character's UTF-8 form says how long the form is. */
  lemma Utf8LeadLength(c: char)
    ensures |Utf8(c)| == LeadLength(Utf8(c)[0])
  {
  }

  /** A character's UTF-8 form determines the character. */
  lemma Utf8Determines(c: char, d: char)
    requires Utf8(c) == Utf8(d)
    ensures c == d
  {
    Utf8Decodes(c);
    Utf8Decodes(d);
  }

  lemma Utf8BytesEmpty(s: string)
    ensures Utf8Bytes(s) == [] <==> s == []
  {
    if s != [] {
      assert |Utf8(s[0])| >= 1;
    }
  }

  /** Distinct texts have distinct UTF-8 bytes. */
  lemma {:induction false} Utf8BytesInjective(a: string, b: string)
    requires Utf8Bytes(a) == Utf8Bytes(b)
    ensures a == b
  {
    Utf8BytesEmpty(a);
    Utf8BytesEmpty(b);
    if a != [] && b != [] {
      var bs := Utf8Bytes(a);
      var ea, eb := Utf8(a[0]), Utf8(b[0]);
      var ra, rb := Utf8Bytes(a[1..]), Utf8Bytes(b[1..]);
      assert bs == ea + ra && bs == eb + rb;
      Utf8LeadLength(a[0]);
      Utf8LeadLength(b[0]);
      assert ea[0] == bs[0] == eb[0];
      assert ea == bs[..|ea|] == eb;
      assert ra == bs[|ea|..] == rb;
      Utf8Determines(a[0], b[0]);
      Utf8BytesInjective(a[1..], b[1..]);
      assert a == [a[0]] + a[1..] && b == [b[0]] + b[1..];
    }
  }

  predicate UnreservedChar(c: char) {
    ('A' <= c <= 'Z') || ('a' <= c <= 'z') || ('0' <= c <= '9') || c == '-' || c == '_' || c == '.' || c == '~'
  }

  predicate Unreserved(b: Byte) {
    UnreservedChar(b as char)
  }

  const HEX_UPPER := "0123456789ABCDEF"

  function HexDigit(n: int): (c: char)
    requires 0 <= n < 16
    ensures UnreservedChar(c) && c != '.'
  {
    HEX_UPPER[n]
  }

  /** One byte: itself when unreserved, `%XX` otherwise. */
  function EncodeByte(b: Byte): string {
    if Unreserved(b) then [b as char] else ['%', HexDigit(b as int / 16), HexDigit(b as int % 16)]
  }

  /**
    A byte is kept as the one character it stands for exactly when it is unreserved;
    every other byte becomes a `%` and two more characters.
  */
  lemma EncodeByteShape(b: Byte)
    ensures |EncodeByte(b)| == 1 <==> Unreserved(b)
    ensures |EncodeByte(b)| == 1 ==> EncodeByte(b)[0] as int == b as int
    ensures |EncodeByte(b)| != 1 ==> |EncodeByte(b)| == 3 && EncodeByte(b)[0] == '%'
    ensures forall i :: 0 <= i < |EncodeByte(b)| ==> EncodedChar(EncodeByte(b)[i])
  {
    if !Unreserved(b) {
      var e := EncodeByte(b);
      assert e[1] == HexDigit(b as int / 16) && e[2] == HexDigit(b as int % 16);
    }
  }

  /** The characters the encoder can produce. */
  predicate EncodedChar(c: char) {
    UnreservedChar(c) || c == '%'
  }

  function EncodeBytes(bs: seq<Byte>): string {
    if bs == [] then [] else EncodeByte(bs[0]) + EncodeBytes(bs[1..])
  }

  /** The encoding has one to three characters per byte, all unreserved or `%`. */
  lemma {:induction false} EncodedAlphabet(bs: seq<Byte>)
    ensures |bs| <= |EncodeBytes(bs)| <= 3 * |bs|
    ensures forall i :: 0 <= i < |EncodeBytes(bs)| ==> EncodedChar(EncodeBytes(bs)[i])
  {
    if bs != [] {
      EncodedAlphabet(bs[1..]);
      EncodeByteShape(bs[0]);
      var head, tail := EncodeByte(bs[0]), EncodeBytes(bs[1..]);
      assert forall i :: |head| <= i < |head + tail| ==> (head + tail)[i] == tail[i - |head|];
    }
  }

  /** `urlencoding::encode`. */
  function Encode(s: string): string {
    EncodeBytes(Utf8Bytes(s))
  }

  /** The value of a hexadecimal digit of either case, as a percent-decoder or a JSON reader reads it. */
  function HexValue(c: char): (r: Option<nat>)
    ensures r.Some? ==> r.value < 16
    ensures r.Some? <==> ('0' <= c <= '9' || 'A' <= c <= 'F' || 'a' <= c <= 'f')
  {
    if '0' <= c <= '9' then Some(c as int - '0' as int)
    else if 'A' <= c <= 'F' then Some(c as int - 'A' as int + 10)
    else if 'a' <= c <= 'f' then Some(c as int - 'a' as int + 10)
    else None
  }

  /**
    Percent-decoding, the inverse the encoder is measured against: `%XX` gives the
    byte XX, an unreserved character gives itself, anything else is rejected.
  */
  function Decode(s: string): Option<seq<Byte>>
    decreases |s|
  {
    if s == [] then Some([])
    else if s[0] == '%' then
      if |s| < 3 then None
      else match (HexValue(s[1]), HexValue(s[2]), Decode(s[3..]))
        case (Some(hi), Some(lo), Some(rest)) => Some([(hi * 16 + lo) as Byte] + rest)
        case _ => None
    else if UnreservedChar(s[0]) then
      match Decode(s[1..])
      case Some(rest) => Some([s[0] as int as Byte] + rest)
      case None => None
    else None
  }

  lemma HexDigitValue(n: int)
    requires 0 <= n < 16
    ensures HexValue(HexDigit(n)) == Some(n)
  {
  }

  lemma DecodeEncodeByte(b: Byte, rest: string, tail: seq<Byte>)
    requires Decode(rest) == Some(tail)
    ensures Decode(EncodeByte(b) + rest) == Some([b] + tail)
  {
    var s := EncodeByte(b) + rest;
    if Unreserved(b) {
      assert s[1..] == rest;
    } else {
      var hi, lo := b as int / 16, b as int % 16;
      HexDigitValue(hi);
      HexDigitValue(lo);
      DecodeEscape(HexDigit(hi), HexDigit(lo), rest, hi, lo, tail);
      assert s == ['%', HexDigit(hi), HexDigit(lo)] + rest;
      assert (hi * 16 + lo) as Byte == b;
    }
  }

  /** A `%XX` escape decodes to the byte with those two hexadecimal digits. */
  lemma DecodeEscape(h: char, l: char, rest: string, hi: nat, lo: nat, tail: seq<Byte>)
    requires HexValue(h) == Some(hi) && HexValue(l) == Some(lo) && Decode(rest) == Some(tail)
    ensures Decode(['%', h, l] + rest) == Some([(hi * 16 + lo) as Byte] + tail)
  {
    assert (['%', h, l] + rest)[3..] == rest;
  }

  /** Round trip: decoding the encoding gives back exactly the bytes. */
  lemma {:induction false} DecodeEncode(bs: seq<Byte>)
    ensures Decode(EncodeBytes(bs)) == Some(bs)
  {
    if bs != [] {
      DecodeEncode(bs[1..]);
      DecodeEncodeByte(bs[0], EncodeBytes(bs[1..]), bs[1..]);
      assert [bs[0]] + bs[1..] == bs;
    }
  }

  /** Decoding what `encode` wrote gives back the UTF-8 bytes of the original string. */
  lemma EncodeRoundTrip(s: string)
    ensures Decode(Encode(s)) == Some(Utf8Bytes(s))
  {
    DecodeEncode(Utf8Bytes(s));
  }

  /** Distinct byte strings never share an encoding. */
  lemma EncodeInjective(a: seq<Byte>, b: seq<Byte>)
    requires EncodeBytes(a) == EncodeBytes(b)
    ensures a == b
  {
    DecodeEncode(a);
    DecodeEncode(b);
  }

  /** Distinct texts get distinct encodings. */
  lemma EncodeTextInjective(a: string, b: string)
    requires Encode(a) == Encode(b)
    ensures a == b
  {
    EncodeInjective(Utf8Bytes(a), Utf8Bytes(b));
    Utf8BytesInjective(a, b);
  }
}
