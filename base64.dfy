/**
 * Base64 as section 4 of RFC 4648 defines it (alphabet A-Z a-z 0-9 + /, '=' padding),
 * and the three codecs built on it that the project uses:
 *  - the browser's `btoa` and `atob` (the "forgiving-base64" decode of the WHATWG Infra
 *    standard), which work on strings whose characters stand for bytes (Latin-1);
 *  - crypto-js's `enc.Base64.parse`, which stops at the first '=' and reads any
 *    character outside the alphabet as zero bits.
 * Encoding and decoding work on 24-bit groups: three bytes become four characters of
 * six bits each; a final group of one or two bytes becomes two or three characters.
 */
module Base64 {
  import opened Wrappers
  import opened Bytes

  predicate IsAlphabetChar(c: char) {
    ('A' <= c <= 'Z') || ('a' <= c <= 'z') || ('0' <= c <= '9') || c == '+' || c == '/'
  }

  /** The six-bit value a character stands for, and 0 for a character outside the
      alphabet (crypto-js's reverse map yields `undefined` there, which its bit
      operations read as 0). */
  function Sextet(c: char): (v: byte)
    ensures v < 64
    ensures !IsAlphabetChar(c) ==> v == 0
  {
    if 'A' <= c <= 'Z' then (c as int - 'A' as int) as byte
    else if 'a' <= c <= 'z' then (c as int - 'a' as int + 26) as byte
    else if '0' <= c <= '9' then (c as int - '0' as int + 52) as byte
    else if c == '+' then 62
    else if c == '/' then 63
    else 0
  }

  /** The character for a six-bit value; Sextet inverts it. */
  function EncodeChar(v: byte): (c: char)
    requires v < 64
    ensures IsAlphabetChar(c) && Sextet(c) == v
  {
    if v < 26 then ('A' as int + v as int) as char
    else if v < 52 then ('a' as int + v as int - 26) as char
    else if v < 62 then ('0' as int + v as int - 52) as char
    else if v == 62 then '+'
    else '/'
  }

  /** The four characters of one full group of three bytes. */
  function EncodeGroup(b0: byte, b1: byte, b2: byte): (s: string)
    ensures |s| == 4
  {
    [EncodeChar(b0 >> 2), EncodeChar(((b0 & 3) << 4) | (b1 >> 4)),
     EncodeChar(((b1 & 15) << 2) | (b2 >> 6)), EncodeChar(b2 & 63)]
  }

  /** The three characters of a last group of two bytes. */
  function EncodePair(b0: byte, b1: byte): (s: string)
    ensures |s| == 3
  {
    [EncodeChar(b0 >> 2), EncodeChar(((b0 & 3) << 4) | (b1 >> 4)), EncodeChar((b1 & 15) << 2)]
  }

  /** The two characters of a last group of one byte. */
  function EncodeSingle(b0: byte): (s: string)
    ensures |s| == 2
  {
    [EncodeChar(b0 >> 2), EncodeChar((b0 & 3) << 4)]
  }

  /** The encoding without its '=' padding. */
  function EncodeUnpadded(b: seq<byte>): (s: string)
    ensures |s| == 4 * (|b| / 3) + (if |b| % 3 == 0 then 0 else |b| % 3 + 1)
    ensures forall i :: 0 <= i < |s| ==> IsAlphabetChar(s[i])
    decreases |b|
  {
    if |b| >= 3 then EncodeGroup(b[0], b[1], b[2]) + EncodeUnpadded(b[3..])
    else if |b| == 2 then EncodePair(b[0], b[1])
    else if |b| == 1 then EncodeSingle(b[0])
    else []
  }

  /** The '=' characters that fill the last group up to four characters. */
  function Padding(n: nat): (p: string)
    ensures forall i :: 0 <= i < |p| ==> p[i] == '='
  {
    if n % 3 == 1 then "==" else if n % 3 == 2 then "=" else ""
  }

  /** Base64 with padding, as `btoa` and crypto-js's `enc.Base64.stringify` produce it. */
  function Encode(b: seq<byte>): (s: string)
    ensures |s| == 4 * ((|b| + 2) / 3)
    ensures forall i :: 0 <= i < |s| ==> IsAlphabetChar(s[i]) || s[i] == '='
  {
    EncodeUnpadded(b) + Padding(|b|)
  }

  /** The bytes carried by a group of two to four characters; the two or four bits
      left over in a partial group are discarded. */
  function DecodeGroup(g: string): (r: seq<byte>)
    requires 2 <= |g| <= 4
    ensures |r| == |g| - 1
  {
    var d0, d1 := Sextet(g[0]), Sextet(g[1]);
    var x0 := (d0 << 2) | (d1 >> 4);
    if |g| == 2 then [x0]
    else
      var d2 := Sextet(g[2]);
      var x1 := ((d1 & 15) << 4) | (d2 >> 2);
      if |g| == 3 then [x0, x1]
      else [x0, x1, ((d2 & 3) << 6) | Sextet(g[3])]
  }

  /** The bytes carried by a run of characters, group by group; a lone character at
      the end carries no byte. */
  function DecodeGroups(s: string): (r: seq<byte>)
    ensures |r| == 3 * (|s| / 4) + (if |s| % 4 <= 1 then 0 else |s| % 4 - 1)
    decreases |s|
  {
    if |s| < 2 then []
    else if |s| < 4 then DecodeGroup(s)
    else DecodeGroup(s[..4]) + DecodeGroups(s[4..])
  }

  lemma DecodeEncodedGroup(b0: byte, b1: byte, b2: byte)
    ensures DecodeGroup(EncodeGroup(b0, b1, b2)) == [b0, b1, b2]
  {
  }

  /** Decoding a full group followed by more text. */
  lemma DecodeGroupsCons(g: string, rest: string)
    requires |g| == 4
    ensures DecodeGroups(g + rest) == DecodeGroup(g) + DecodeGroups(rest)
  {
    assert (g + rest)[..4] == g && (g + rest)[4..] == rest;
  }

  /** A last group of one byte decodes to that byte. */
  lemma DecodeEncodedSingle(x: byte)
    ensures DecodeGroup(EncodeSingle(x)) == [x]
  {
  }

  /** A last group of two bytes decodes to those bytes. */
  lemma DecodeEncodedPair(x: byte, y: byte)
    ensures DecodeGroup(EncodePair(x, y)) == [x, y]
  {
  }

  /** A last group of two bytes decodes to those bytes. */
  lemma DecodeEncodeTwo(b: seq<byte>)
    requires |b| == 2
    ensures DecodeGroups(EncodeUnpadded(b)) == b
  {
    calc {
      DecodeGroups(EncodeUnpadded(b));
      DecodeGroups(EncodePair(b[0], b[1]));
      DecodeGroup(EncodePair(b[0], b[1]));
      { DecodeEncodedPair(b[0], b[1]); }
      [b[0], b[1]];
      b;
    }
  }

  /** A last group of one byte decodes to that byte. */
  lemma DecodeEncodeOne(b: seq<byte>)
    requires |b| == 1
    ensures DecodeGroups(EncodeUnpadded(b)) == b
  {
    calc {
      DecodeGroups(EncodeUnpadded(b));
      DecodeGroups(EncodeSingle(b[0]));
      DecodeGroup(EncodeSingle(b[0]));
      { DecodeEncodedSingle(b[0]); }
      [b[0]];
      b;
    }
  }

  /** One step of decoding an encoding: the first group gives back the first three bytes. */
  lemma DecodeEncodeStep(b: seq<byte>)
    requires |b| >= 3
    ensures DecodeGroups(EncodeUnpadded(b)) == [b[0], b[1], b[2]] + DecodeGroups(EncodeUnpadded(b[3..]))
  {
    var g, rest := EncodeGroup(b[0], b[1], b[2]), EncodeUnpadded(b[3..]);
    assert EncodeUnpadded(b) == g + rest;
    DecodeGroupsCons(g, rest);
    DecodeEncodedGroup(b[0], b[1], b[2]);
  }

  /** Decoding the unpadded encoding gives the bytes back. */
  lemma {:induction false} DecodeEncodeUnpadded(b: seq<byte>)
    ensures DecodeGroups(EncodeUnpadded(b)) == b
    decreases |b|
  {
    if |b| >= 3 {
      calc {
        DecodeGroups(EncodeUnpadded(b));
        { DecodeEncodeStep(b); }
        [b[0], b[1], b[2]] + DecodeGroups(EncodeUnpadded(b[3..]));
        { DecodeEncodeUnpadded(b[3..]); }
        [b[0], b[1], b[2]] + b[3..];
        b;
      }
    } else if |b| == 2 {
      DecodeEncodeTwo(b);
    } else if |b| == 1 {
      DecodeEncodeOne(b);
    }
  }

  // ---------------------------------------------------------------------------
  // The browser's atob and btoa, over strings whose characters stand for bytes.

  /** The DOMException `atob` and `btoa` throw. */
  datatype DomError = InvalidCharacterError

  /** `String.fromCharCode(...bytes)`: one character per byte. */
  function FromCharCodes(b: seq<byte>): (s: string)
    ensures |s| == |b|
    ensures forall i :: 0 <= i < |s| ==> s[i] as int == b[i] as int
  {
    seq(|b|, i requires 0 <= i < |b| => b[i] as int as char)
  }

  /** `c.charCodeAt(0)` stored into a Uint8Array: the code reduced modulo 256. */
  function CharCode(c: char): (b: byte)
    ensures c as int < 256 ==> b as int == c as int
  {
    (c as int % 256) as byte
  }

  /** `Uint8Array.from(s, c => c.charCodeAt(0))`. */
  function CharCodes(s: string): (b: seq<byte>)
    ensures |b| == |s|
    ensures forall i :: 0 <= i < |s| ==> b[i] == CharCode(s[i])
  {
    seq(|s|, i requires 0 <= i < |s| => CharCode(s[i]))
  }

  lemma CharCodesOfFromCharCodes(b: seq<byte>)
    ensures CharCodes(FromCharCodes(b)) == b
  {
    var s := FromCharCodes(b);
    assert forall i :: 0 <= i < |b| ==> CharCodes(s)[i] == b[i];
  }

  /** `btoa`: throws when a character does not stand for a byte. */
  function Btoa(s: string): (r: Result<string, DomError>)
    ensures r.Err? <==> exists i :: 0 <= i < |s| && s[i] as int > 255
  {
    if exists i :: 0 <= i < |s| && s[i] as int > 255 then Err(InvalidCharacterError)
    else Ok(Encode(CharCodes(s)))
  }

  /** ASCII whitespace, which forgiving-base64 removes before decoding. */
  predicate IsAsciiWhitespace(c: char) {
    c == '\t' || c == '\n' || c == '\U{C}' || c == '\r' || c == ' '
  }

  function RemoveWhitespace(s: string): (r: string)
    ensures forall i :: 0 <= i < |r| ==> !IsAsciiWhitespace(r[i])
    ensures |r| <= |s|
  {
    if s == [] then []
    else if IsAsciiWhitespace(s[0]) then RemoveWhitespace(s[1..])
    else [s[0]] + RemoveWhitespace(s[1..])
  }

  /** A length that is a multiple of four loses one or two trailing '='. */
  function StripPadding(s: string): (r: string)
    ensures r <= s
  {
    if |s| % 4 == 0 && |s| >= 2 && s[|s| - 2..] == "==" then s[..|s| - 2]
    else if |s| % 4 == 0 && |s| >= 1 && s[|s| - 1] == '=' then s[..|s| - 1]
    else s
  }

  /** `atob`: forgiving-base64 decode. The result's characters stand for the bytes. */
  function Atob(s: string): (r: Result<string, DomError>)
    ensures r.Ok? ==> forall i :: 0 <= i < |r.value| ==> r.value[i] as int < 256
  {
    var t := StripPadding(RemoveWhitespace(s));
    if |t| % 4 == 1 || exists i :: 0 <= i < |t| && !IsAlphabetChar(t[i]) then Err(InvalidCharacterError)
    else Ok(FromCharCodes(DecodeGroups(t)))
  }

  lemma {:induction false} RemoveWhitespaceNone(s: string)
    requires forall i :: 0 <= i < |s| ==> !IsAsciiWhitespace(s[i])
    ensures RemoveWhitespace(s) == s
    decreases |s|
  {
    if s != [] {
      RemoveWhitespaceNone(s[1..]);
      assert s == [s[0]] + s[1..];
    }
  }

  lemma StripPaddingNone(u: string)
    requires |u| % 4 == 0 && forall i :: 0 <= i < |u| ==> IsAlphabetChar(u[i])
    ensures StripPadding(u) == u
  {
    if |u| > 0 {
      assert IsAlphabetChar(u[|u| - 1]);
    }
  }

  lemma StripPaddingOne(u: string)
    requires |u| % 4 == 3 && forall i :: 0 <= i < |u| ==> IsAlphabetChar(u[i])
    ensures StripPadding(u + "=") == u
  {
    var s := u + "=";
    assert s[|s| - 2..] == [u[|u| - 1], '='];
    assert IsAlphabetChar(u[|u| - 1]);
    assert s[..|s| - 1] == u;
  }

  lemma StripPaddingTwo(u: string)
    requires |u| % 4 == 2
    ensures StripPadding(u + "==") == u
  {
    var s := u + "==";
    assert s[|s| - 2..] == "==";
    assert s[..|s| - 2] == u;
  }

  /** The unpadded length modulo 4, from the byte count. */
  lemma UnpaddedLengthMod(n: nat, m: nat)
    requires n == 4 * (m / 3) + (if m % 3 == 0 then 0 else m % 3 + 1)
    ensures n % 4 == (if m % 3 == 0 then 0 else m % 3 + 1)
  {
    var q, c := m / 3, if m % 3 == 0 then 0 else m % 3 + 1;
    assert n == 4 * q + c && c < 4;
  }

  /** Removing one or two '=' that complete a group gives back the group's text. */
  lemma StripPaddingOf(u: string, p: string)
    requires forall i :: 0 <= i < |u| ==> IsAlphabetChar(u[i])
    requires || (p == "" && |u| % 4 == 0)
             || (p == "=" && |u| % 4 == 3)
             || (p == "==" && |u| % 4 == 2)
    ensures StripPadding(u + p) == u
  {
    if p == "" {
      assert u + p == u;
      StripPaddingNone(u);
    } else if p == "=" {
      StripPaddingOne(u);
    } else {
      StripPaddingTwo(u);
    }
  }

  /** Removing the padding of an encoding leaves the unpadded encoding. */
  lemma StripPaddingOfEncode(b: seq<byte>)
    ensures StripPadding(Encode(b)) == EncodeUnpadded(b)
  {
    var u := EncodeUnpadded(b);
    UnpaddedLengthMod(|u|, |b|);
    StripPaddingOf(u, Padding(|b|));
  }

  /** `atob` undoes `btoa` on every byte string: the property the browser relies on to
      recover a raw key from its Base64 text. */
  lemma AtobOfBtoa(b: seq<byte>)
    ensures Btoa(FromCharCodes(b)) == Ok(Encode(b))
    ensures Atob(Encode(b)) == Ok(FromCharCodes(b))
  {
    CharCodesOfFromCharCodes(b);
    AtobOfEncode(b);
  }

  /** `atob` reads the encoding of some bytes back as the characters for those bytes. */
  lemma AtobOfEncode(b: seq<byte>)
    ensures Atob(Encode(b)) == Ok(FromCharCodes(b))
  {
    var s, u := Encode(b), EncodeUnpadded(b);
    assert StripPadding(RemoveWhitespace(s)) == u by {
      RemoveWhitespaceNone(s);
      StripPaddingOfEncode(b);
    }
    assert |u| % 4 != 1 by {
      UnpaddedLengthMod(|u|, |b|);
    }
    assert DecodeGroups(u) == b by {
      DecodeEncodeUnpadded(b);
    }
  }

  // ---------------------------------------------------------------------------
  // crypto-js's enc.Base64.parse.

  /** The text before the first '=' (crypto-js takes `indexOf('=')` as the length). */
  function BeforePadding(s: string): (r: string)
    ensures r <= s
    ensures forall i :: 0 <= i < |r| ==> r[i] != '='
    ensures |r| < |s| ==> s[|r|] == '='
  {
    if s == [] || s[0] == '=' then [] else [s[0]] + BeforePadding(s[1..])
  }

  /** The bytes of `enc.Base64.parse(s)`: every position i with i % 4 != 0 before the
      first '=' yields one byte from the characters at i - 1 and i. */
  function CryptoJsDecode(s: string): (r: seq<byte>)
    ensures |r| == |BeforePadding(s)| - (|BeforePadding(s)| + 3) / 4
  {
    DecodeGroups(BeforePadding(s))
  }

  lemma {:induction false} BeforePaddingOfPadded(u: string, p: string)
    requires forall i :: 0 <= i < |u| ==> u[i] != '='
    requires p == [] || p[0] == '='
    ensures BeforePadding(u + p) == u
    decreases |u|
  {
    if u != [] {
      assert (u + p)[1..] == u[1..] + p;
      BeforePaddingOfPadded(u[1..], p);
    } else {
      assert u + p == p;
    }
  }

  /** crypto-js's parse undoes the encoding too. */
  lemma CryptoJsDecodeOfEncode(b: seq<byte>)
    ensures CryptoJsDecode(Encode(b)) == b
  {
    var u := EncodeUnpadded(b);
    BeforePaddingOfPadded(u, Padding(|b|));
    DecodeEncodeUnpadded(b);
  }
}
