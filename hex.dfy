/**
 * Base16 as section 8 of RFC 4648 defines it, in the three forms the script uses:
 * crypto-js's `enc.Hex.stringify` (two lowercase digits per byte, high nibble first),
 * crypto-js's `enc.Hex.parse`, and Node's `Buffer.from(text, 'hex')`, which decodes
 * pairs of digits up to the first pair that is not two hexadecimal digits.
 */
module Hex {
  import opened Wrappers
  import opened Bytes

  predicate IsHexDigit(c: char) {
    ('0' <= c <= '9') || ('a' <= c <= 'f') || ('A' <= c <= 'F')
  }

  predicate IsLowerHexDigit(c: char) {
    ('0' <= c <= '9') || ('a' <= c <= 'f')
  }

  /** The value of a digit, as an integer; upper- and lowercase letters read alike. */
  function DigitInt(c: char): (n: nat)
    requires IsHexDigit(c)
    ensures n < 16
  {
    if '0' <= c <= '9' then c as int - '0' as int
    else if 'a' <= c <= 'f' then c as int - 'a' as int + 10
    else c as int - 'A' as int + 10
  }

  /** The value of a digit, as a nibble. */
  function DigitValue(c: char): (v: byte)
    requires IsHexDigit(c)
    ensures v < 16 && v as int == DigitInt(c)
  {
    DigitInt(c) as byte
  }

  /** `v.toString(16)` for a value below 16. */
  function Digit(v: byte): (c: char)
    requires v < 16
    ensures IsLowerHexDigit(c) && IsHexDigit(c) && DigitInt(c) == v as int && DigitValue(c) == v
  {
    if v < 10 then ('0' as int + v as int) as char
    else ('a' as int + v as int - 10) as char
  }

  /** crypto-js `enc.Hex.stringify` of a word array's significant bytes. */
  function Encode(b: seq<byte>): (s: string)
    ensures |s| == 2 * |b|
    ensures forall i :: 0 <= i < |s| ==> IsLowerHexDigit(s[i])
  {
    if b == [] then [] else [Digit(b[0] >> 4), Digit(b[0] & 15)] + Encode(b[1..])
  }

  /** Node's `Buffer.from(s, 'hex')`. */
  function BufferFromHex(s: string): (r: seq<byte>)
    ensures |r| <= |s| / 2
  {
    if |s| < 2 || !IsHexDigit(s[0]) || !IsHexDigit(s[1]) then []
    else [(DigitValue(s[0]) << 4) | DigitValue(s[1])] + BufferFromHex(s[2..])
  }

  /** Text crypto-js's parser reads exactly: an even number of hexadecimal digits. */
  predicate WellFormed(s: string) {
    |s| % 2 == 0 && forall i :: 0 <= i < |s| ==> IsHexDigit(s[i])
  }

  /** The bytes of crypto-js `enc.Hex.parse(s)` for well-formed text; None otherwise. */
  function Decode(s: string): (r: Option<seq<byte>>)
    ensures r.Some? <==> WellFormed(s)
  {
    if WellFormed(s) then Some(BufferFromHex(s)) else None
  }

  /** On well-formed text every pair is decoded: one byte per two digits. */
  lemma {:induction false} DecodeLength(s: string)
    requires WellFormed(s)
    ensures |BufferFromHex(s)| == |s| / 2
    decreases |s|
  {
    if |s| >= 2 {
      assert WellFormed(s[2..]) by {
        assert forall i :: 0 <= i < |s| - 2 ==> s[2..][i] == s[i + 2];
      }
      DecodeLength(s[2..]);
    }
  }

  lemma NibblesJoin(b: byte)
    ensures ((b >> 4) << 4) | (b & 15) == b
  {
  }

  lemma NibblesSplit(hi: byte, lo: byte)
    requires hi < 16 && lo < 16
    ensures ((hi << 4) | lo) >> 4 == hi && ((hi << 4) | lo) & 15 == lo
  {
  }

  /** One byte's two digits decode to the byte. */
  lemma DecodeDigits(x: byte)
    ensures (DigitValue(Digit(x >> 4)) << 4) | DigitValue(Digit(x & 15)) == x
  {
    NibblesJoin(x);
  }

  /** Two lowercase digits are the encoding of the byte they decode to. */
  lemma EncodeDigits(c0: char, c1: char)
    requires IsLowerHexDigit(c0) && IsLowerHexDigit(c1)
    ensures var x := (DigitValue(c0) << 4) | DigitValue(c1);
      Digit(x >> 4) == c0 && Digit(x & 15) == c1
  {
    var hi, lo := DigitValue(c0), DigitValue(c1);
    NibblesSplit(hi, lo);
    DigitOfValue(c0);
    DigitOfValue(c1);
  }

  lemma DigitOfValue(c: char)
    requires IsLowerHexDigit(c)
    ensures Digit(DigitValue(c)) == c
  {
  }

  /** Decoding two digits followed by more text. */
  lemma BufferFromHexCons(c0: char, c1: char, rest: string)
    requires IsHexDigit(c0) && IsHexDigit(c1)
    ensures BufferFromHex([c0, c1] + rest) == [(DigitValue(c0) << 4) | DigitValue(c1)] + BufferFromHex(rest)
  {
    assert ([c0, c1] + rest)[2..] == rest;
  }

  /** One step of decoding an encoding: the first two digits decode to the first byte. */
  lemma DecodeEncodeStep(b: seq<byte>)
    requires b != []
    ensures BufferFromHex(Encode(b)) == [b[0]] + BufferFromHex(Encode(b[1..]))
  {
    var c0, c1 := Digit(b[0] >> 4), Digit(b[0] & 15);
    assert Encode(b) == [c0, c1] + Encode(b[1..]);
    BufferFromHexCons(c0, c1, Encode(b[1..]));
    DecodeDigits(b[0]);
  }

  /** Decoding the encoding gives the bytes back, for both decoders. */
  lemma {:induction false} DecodeEncode(b: seq<byte>)
    ensures BufferFromHex(Encode(b)) == b
    ensures Decode(Encode(b)) == Some(b)
    decreases |b|
  {
    if b != [] {
      calc {
        BufferFromHex(Encode(b));
        { DecodeEncodeStep(b); }
        [b[0]] + BufferFromHex(Encode(b[1..]));
        { DecodeEncode(b[1..]); }
        [b[0]] + b[1..];
        b;
      }
    }
  }

  /** Encoding a byte followed by more bytes. */
  lemma EncodeCons(x: byte, rest: seq<byte>)
    ensures Encode([x] + rest) == [Digit(x >> 4), Digit(x & 15)] + Encode(rest)
  {
    assert ([x] + rest)[1..] == rest;
  }

  /** One step of encoding a decoding: the first byte encodes to the first two digits. */
  lemma EncodeDecodeStep(s: string)
    requires |s| >= 2 && IsLowerHexDigit(s[0]) && IsLowerHexDigit(s[1])
    ensures Encode(BufferFromHex(s)) == [s[0], s[1]] + Encode(BufferFromHex(s[2..]))
  {
    var x := (DigitValue(s[0]) << 4) | DigitValue(s[1]);
    var rest := BufferFromHex(s[2..]);
    assert BufferFromHex(s) == [x] + rest;
    EncodeCons(x, rest);
    EncodeDigits(s[0], s[1]);
  }

  /** Encoding the bytes of lowercase, even-length text gives the text back. */
  lemma {:induction false} EncodeDecode(s: string)
    requires |s| % 2 == 0 && forall i :: 0 <= i < |s| ==> IsLowerHexDigit(s[i])
    ensures Encode(BufferFromHex(s)) == s
    decreases |s|
  {
    if |s| >= 2 {
      var t := s[2..];
      assert forall i :: 0 <= i < |t| ==> IsLowerHexDigit(t[i]) by {
        assert forall i :: 0 <= i < |t| ==> t[i] == s[i + 2];
      }
      calc {
        Encode(BufferFromHex(s));
        { EncodeDecodeStep(s); }
        [s[0], s[1]] + Encode(BufferFromHex(t));
        { EncodeDecode(t); }
        [s[0], s[1]] + t;
        s;
      }
    }
  }
}
