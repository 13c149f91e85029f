/** Byte and digest types, and the lowercase hex text form of a digest
    (`format_hash` / `parse_hash` in src/rom/hash.rs, which wrap the `hex`
    crate's `encode` / `decode`). */
module Hex {
  import opened Wrappers
  import opened Ascii

  type Byte = b: int | 0 <= b < 256

  /** A SHA-256 digest, Rust's `[u8; 32]`. */
  type Hash = h: seq<Byte> | |h| == 32 witness seq(32, i => 0)

  /** The all-zero digest that `map_row_to_node_row` falls back to. */
  const ZeroHash: Hash := [0, 0, 0, 0, 0, 0, 0, 0, 0, 0, 0, 0, 0, 0, 0, 0, 0, 0, 0, 0, 0, 0, 0, 0, 0, 0, 0, 0, 0, 0, 0, 0]

  /** The lowercase digit of a nibble, as in "0123456789abcdef". */
  function HexDigit(n: int): (c: char)
    requires 0 <= n < 16
    ensures IsHexDigit(c) && !IsUpper(c)
  {
    if n < 10 then ('0' as int + n) as char else ('a' as int + n - 10) as char
  }

  /** The value of one hex digit; both letter cases are accepted, as by
      `hex::decode`. */
  function HexValue(c: char): (v: int)
    requires IsHexDigit(c)
    ensures 0 <= v < 16
  {
    if '0' <= c <= '9' then c as int - '0' as int
    else if 'a' <= c <= 'f' then c as int - 'a' as int + 10
    else c as int - 'A' as int + 10
  }

  lemma DigitValue(n: int)
    requires 0 <= n < 16
    ensures HexValue(HexDigit(n)) == n
  {
  }

  lemma ValueDigit(c: char)
    requires IsHexDigit(c)
    ensures HexDigit(HexValue(c)) == LowerChar(c)
  {
  }

  predicate AllHex(s: string) {
    forall i :: 0 <= i < |s| ==> IsHexDigit(s[i])
  }

  /** `hex::encode`: two lowercase digits per byte, high nibble first. */
  function Encode(bytes: seq<Byte>): (s: string)
    ensures |s| == 2 * |bytes|
  {
    if |bytes| == 0 then ""
    else ByteHex(bytes[0]) + Encode(bytes[1..])
  }

  /** The two digits of one byte, high nibble first. */
  function ByteHex(b: Byte): (s: string)
    ensures |s| == 2 && IsHexDigit(s[0]) && IsHexDigit(s[1]) && !IsUpper(s[0]) && !IsUpper(s[1])
  {
    [HexDigit(b / 16), HexDigit(b % 16)]
  }

  /** The encoding is hex digits, none of them uppercase. */
  lemma {:induction false} EncodeDigits(bytes: seq<Byte>)
    ensures AllHex(Encode(bytes))
    ensures forall i :: 0 <= i < |Encode(bytes)| ==> !IsUpper(Encode(bytes)[i])
  {
    if |bytes| > 0 {
      EncodeDigits(bytes[1..]);
      var s, t := Encode(bytes), Encode(bytes[1..]);
      assert forall i :: 2 <= i < |s| ==> s[i] == t[i - 2];
    }
  }

  /** `hex::decode` on text it accepts: an even number of hex digits. */
  function Decode(s: string): (bytes: seq<Byte>)
    requires |s| % 2 == 0 && AllHex(s)
    ensures 2 * |bytes| == |s|
  {
    if |s| == 0 then []
    else [16 * HexValue(s[0]) + HexValue(s[1])] + Decode(s[2..])
  }

  /** `format_hash`: the 64-character lowercase hex form of a digest. */
  function FormatHash(h: Hash): (s: string)
    ensures |s| == 64 && AllHex(s)
    ensures forall i :: 0 <= i < |s| ==> !IsUpper(s[i])
  {
    EncodeDigits(h);
    Encode(h)
  }

  /** `parse_hash`: None unless the text is 64 hex digits of either case. */
  function ParseHash(s: string): (r: Option<Hash>)
    ensures r.Some? <==> |s| == 64 && AllHex(s)
  {
    if |s| != 64 then None
    else if !AllHex(s) then None
    else Some(Decode(s))
  }

  /** The two digits of a byte decode back to it. */
  lemma ByteDigits(b: Byte)
    ensures 16 * HexValue(ByteHex(b)[0]) + HexValue(ByteHex(b)[1]) == b
  {
    DigitValue(b / 16);
    DigitValue(b % 16);
  }

  lemma {:induction false} DecodeEncode(bytes: seq<Byte>)
    ensures AllHex(Encode(bytes)) && Decode(Encode(bytes)) == bytes
  {
    EncodeDigits(bytes);
    if |bytes| > 0 {
      var b, t := bytes[0], bytes[1..];
      var hi, lo := ByteHex(b)[0], ByteHex(b)[1];
      assert Encode(bytes) == [hi, lo] + Encode(t);
      EncodeDigits(t);
      DecodeCons(hi, lo, Encode(t));
      ByteDigits(b);
      DecodeEncode(t);
      assert Decode(Encode(bytes)) == [b] + t;
    }
  }

  /** Decoding takes the text two digits at a time. */
  lemma {:induction false} DecodeCons(hi: char, lo: char, t: string)
    requires IsHexDigit(hi) && IsHexDigit(lo) && |t| % 2 == 0 && AllHex(t)
    ensures AllHex([hi, lo] + t)
    ensures Decode([hi, lo] + t) == [16 * HexValue(hi) + HexValue(lo)] + Decode(t)
  {
    assert ([hi, lo] + t)[2..] == t;
  }

  /** A byte built from two nibbles is written as their two digits. */
  lemma NibblesByte(hi: int, lo: int)
    requires 0 <= hi < 16 && 0 <= lo < 16
    ensures 0 <= 16 * hi + lo < 256
    ensures ByteHex(16 * hi + lo) == [HexDigit(hi), HexDigit(lo)]
  {
  }

  lemma {:induction false} EncodeDecode(s: string)
    requires |s| % 2 == 0 && AllHex(s)
    ensures Encode(Decode(s)) == ToLower(s)
  {
    if |s| > 0 {
      var v0, v1 := HexValue(s[0]), HexValue(s[1]);
      var d := Decode(s);
      assert d[0] == 16 * v0 + v1;
      NibblesByte(v0, v1);
      ValueDigit(s[0]);
      ValueDigit(s[1]);
      assert d[1..] == Decode(s[2..]);
      EncodeDecode(s[2..]);
      assert ToLower(s) == [LowerChar(s[0]), LowerChar(s[1])] + ToLower(s[2..]);
    }
  }

  /** `parse_hash(format_hash(h)) == Some(h)`. */
  lemma ParseFormat(h: Hash)
    ensures ParseHash(FormatHash(h)) == Some(h)
  {
    DecodeEncode(h);
  }

  /** Parsing then formatting gives back the text, lowercased. */
  lemma FormatParse(s: string)
    requires ParseHash(s).Some?
    ensures FormatHash(ParseHash(s).value) == ToLower(s)
  {
    EncodeDecode(s);
  }

  /** Distinct digests have distinct hex forms. */
  lemma FormatHashInjective(a: Hash, b: Hash)
    requires FormatHash(a) == FormatHash(b)
    ensures a == b
  {
    ParseFormat(a);
    ParseFormat(b);
  }
}
