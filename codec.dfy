/**
 * base62_encode_str and base62_decode_str of app.py: a URL is turned into its
 * UTF-8 bytes, the bytes are read as one big-endian integer, and the integer is
 * written in base 62. Decoding goes back to the integer and rebuilds
 * ceil(bit_length / 8) bytes. The production short code is the first eight
 * characters of the encoding.
 */
module Codec {
  import opened Wrappers
  import opened Base62

  /** Characters kept from the encoding as the stored short code (the slice [:8]). */
  const CODE_LENGTH: nat := 8

  // ---------------------------------------------------------------------
  // UTF-8 (s.encode('utf-8'))

  function Utf8Char(c: char): (bs: seq<Byte>)
    ensures 1 <= |bs| <= 4
    ensures (bs[0] == 0) == (c == '\0')
  {
    var cp := c as int;
    if cp < 0x80 then [cp]
    else if cp < 0x800 then [0xC0 + cp / 0x40, 0x80 + cp % 0x40]
    else if cp < 0x1_0000 then [0xE0 + cp / 0x1000, 0x80 + (cp / 0x40) % 0x40, 0x80 + cp % 0x40]
    else [0xF0 + cp / 0x4_0000, 0x80 + (cp / 0x1000) % 0x40, 0x80 + (cp / 0x40) % 0x40, 0x80 + cp % 0x40]
  }

  /** The UTF-8 bytes of s; only the NUL character produces a zero leading byte. */
  function Utf8(s: string): (bs: seq<Byte>)
    ensures |bs| >= |s|
    ensures s != [] ==> bs != [] && ((bs[0] == 0) == (s[0] == '\0'))
  {
    if s == [] then [] else Utf8Char(s[0]) + Utf8(s[1..])
  }

  // ---------------------------------------------------------------------
  // Encoding and decoding

  /** base62.encode(int.from_bytes(b, 'big')) */
  function EncodeBytes(b: seq<Byte>, a: seq<char>): (code: string)
    requires |a| == BASE
    ensures |code| >= 1
    ensures forall i :: 0 <= i < |code| ==> code[i] in a
  {
    Spell(ToDigits(FromBytes(b)), a)
  }

  /** base62_encode_str: the base-62 encoding of the UTF-8 bytes of s. */
  function EncodeStr(s: string, a: seq<char>): (code: string)
    requires |a| == BASE
    ensures |code| >= 1
  {
    EncodeBytes(Utf8(s), a)
  }

  /**
   * base62_decode_str up to its final UTF-8 decoding step: the rebuilt bytes,
   * or None where base62.decode rejects a character outside the alphabet.
   */
  function DecodeStr(code: string, a: seq<char>): (r: Option<seq<Byte>>)
    requires |a| == BASE
    ensures r.Some? <==> forall i :: 0 <= i < |code| ==> code[i] in a
  {
    match Unspell(code, a)
    case None => None
    case Some(ds) =>
      var n := FromDigits(ds);
      ByteLengthFits(n);
      ToBytes(n, ByteLength(n))
  }

  /**
   * Round trip: decoding the encoding gives the bytes back, for every byte
   * string that does not begin with a zero byte (the empty one included).
   */
  lemma RoundTripBytes(b: seq<Byte>, a: seq<char>)
    requires IsAlphabet(a)
    requires b == [] || b[0] != 0
    ensures DecodeStr(EncodeBytes(b, a), a) == Some(b)
  {
    var n := FromBytes(b);
    UnspellSpell(ToDigits(n), a);
    FromDigitsToDigits(n);
    ByteLengthOfFromBytes(b);
    ToBytesFromBytes(b);
  }

  /** decode(encode(s)) == s on the byte level for every string that does not start with NUL. */
  lemma RoundTrip(s: string, a: seq<char>)
    requires IsAlphabet(a)
    requires s == [] || s[0] != '\0'
    ensures DecodeStr(EncodeStr(s, a), a) == Some(Utf8(s))
  {
    RoundTripBytes(Utf8(s), a);
  }

  /** Leading zero bytes do not survive the round trip: they are dropped by from_bytes. */
  lemma LeadingZeroLost(b: seq<Byte>, a: seq<char>)
    requires IsAlphabet(a)
    requires b == [] || b[0] != 0
    ensures EncodeBytes([0] + b, a) == EncodeBytes(b, a)
    ensures DecodeStr(EncodeBytes([0] + b, a), a) == Some(b)
  {
    FromBytesLeadingZero(b);
    RoundTripBytes(b, a);
  }

  /**
   * The other direction: a code whose digits have no leading zero decodes to
   * bytes whose encoding is that code again.
   */
  lemma EncodeOfDecode(code: string, a: seq<char>)
    requires IsAlphabet(a)
    requires Unspell(code, a).Some? && Canonical(Unspell(code, a).value)
    ensures DecodeStr(code, a).Some? && EncodeBytes(DecodeStr(code, a).value, a) == code
  {
    var ds := Unspell(code, a).value;
    ToDigitsFromDigits(ds);
    SpellUnspell(code, a);
  }

  // ---------------------------------------------------------------------
  // The production short code

  /** base62_encode_str(url)[:8] */
  function ShortCode(url: string, a: seq<char>): (code: string)
    requires |a| == BASE
    ensures 1 <= |code| <= CODE_LENGTH
    ensures code <= EncodeStr(url, a)
    ensures |code| < CODE_LENGTH ==> code == EncodeStr(url, a)
  {
    var e := EncodeStr(url, a);
    if |e| <= CODE_LENGTH then e else e[..CODE_LENGTH]
  }

  /**
   * Truncation loses nothing for URLs whose encoding fits in eight characters:
   * two such URLs (not starting with NUL) share a short code only if their
   * UTF-8 bytes are equal.
   */
  lemma ShortCodeInjectiveWhenShort(u1: string, u2: string, a: seq<char>)
    requires IsAlphabet(a)
    requires u1 == [] || u1[0] != '\0'
    requires u2 == [] || u2[0] != '\0'
    requires |EncodeStr(u1, a)| <= CODE_LENGTH && |EncodeStr(u2, a)| <= CODE_LENGTH
    requires ShortCode(u1, a) == ShortCode(u2, a)
    ensures Utf8(u1) == Utf8(u2)
  {
    RoundTrip(u1, a);
    RoundTrip(u2, a);
  }
}
