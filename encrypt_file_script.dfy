/**
 * The Node script smart-contract/scripts/encryptFile.js, built on crypto-js: a random
 * 32-byte key exported as Base64, a random 12-byte IV, the IV word array concatenated
 * with the ciphertext word array and written out as lowercase hex; and the reverse,
 * which parses the hex, takes the first three words as the IV and the remaining words
 * as the ciphertext.
 *
 * Reading the file, the random source and the cipher are not modelled: the file's bytes
 * and the random bytes are parameters, and the cipher is a pair of functions.
 */
module EncryptFileScript {
  import opened Wrappers
  import opened Bytes
  import opened WordArrays
  import Base64
  import Hex

  /** `crypto.lib.WordArray.random(256 / 8)`: the key has 32 bytes. */
  const KeyBytes: nat := 32

  /** `crypto.lib.WordArray.random(12)`. */
  const IvBytes: nat := 12

  /** The IV spans this many 32-bit words. */
  const IvWords: nat := 3

  /** `crypto.AES.encrypt(…).ciphertext` and `crypto.AES.decrypt(…)`, as functions of the
      significant bytes of the key, the IV and the data. */
  datatype CryptoJsAes = CryptoJsAes(
    encrypt: (seq<byte>, seq<byte>, seq<byte>) -> WordArray,
    decrypt: (seq<byte>, seq<byte>, seq<byte>) -> WordArray)

  /** What the proofs take for granted of the cipher: its output has a byte count that is
      not negative, and decryption under the same key and IV gives back the plaintext. */
  ghost predicate Inverts(aes: CryptoJsAes) {
    forall key, iv, plain ::
      && aes.encrypt(key, iv, plain).sigBytes >= 0
      && Content(aes.decrypt(key, iv, Content(aes.encrypt(key, iv, plain)))) == plain
  }

  /** The object `encryptFile` returns. */
  datatype Encrypted = Encrypted(encryptedData: string, encryptionKey: string)

  /** `encryptFile(filePath)`, given the file's bytes and the random key and IV bytes. */
  function EncryptFile(aes: CryptoJsAes, file: seq<byte>, keyRandom: seq<byte>, ivRandom: seq<byte>): (r: Encrypted)
    requires |keyRandom| == KeyBytes && |ivRandom| == IvBytes
    ensures r.encryptionKey == Base64.Encode(keyRandom)
    ensures aes.encrypt(keyRandom, ivRandom, file).sigBytes >= 0 ==>
      Hex.Decode(r.encryptedData) == Some(ivRandom + Content(aes.encrypt(keyRandom, ivRandom, file)))
  {
    var key := FromBytes(keyRandom);
    var encryptionKey := Base64.Encode(Content(key));
    var iv := FromBytes(ivRandom);
    var wordArray := FromBytes(file);
    var ciphertext := aes.encrypt(Content(key), Content(iv), Content(wordArray));
    var combined := Concat(iv, ciphertext);
    var encryptedData := Hex.Encode(Content(combined));
    EncryptedHex(aes, file, keyRandom, ivRandom);
    Encrypted(encryptedData, encryptionKey)
  }

  /** `decryptFile(encryptedDataHex, encryptionKey)`; None where the text is not an even
      number of hexadecimal digits. The buffer is the decryption, under the parsed key, of
      the bytes after the first 12 with those 12 as the IV; when fewer than 12 bytes are
      parsed, the IV is zero-filled and the ciphertext is empty. */
  function DecryptFile(aes: CryptoJsAes, encryptedDataHex: string, encryptionKey: string): (r: Option<seq<byte>>)
    ensures r.Some? <==> Hex.WellFormed(encryptedDataHex)
    ensures var b := Hex.BufferFromHex(encryptedDataHex);
      r.Some? && |b| >= IvBytes ==>
        r.value == Content(aes.decrypt(Base64.CryptoJsDecode(encryptionKey), b[..IvBytes], b[IvBytes..]))
    ensures var b := Hex.BufferFromHex(encryptedDataHex);
      r.Some? && |b| < IvBytes ==>
        r.value == Content(aes.decrypt(Base64.CryptoJsDecode(encryptionKey), b + seq(IvBytes - |b|, _ => 0), []))
  {
    match Hex.Decode(encryptedDataHex)
    case None => None
    case Some(bytes) =>
      var combined := FromBytes(bytes);
      var iv := TakeWords(combined, IvWords);
      var encrypted := DropWords(combined, IvWords);
      var key := FromBytes(Base64.CryptoJsDecode(encryptionKey));
      var decrypted := aes.decrypt(Content(key), Content(iv), Content(encrypted));
      SliceCombined(bytes);
      ContentOfFromBytes(Base64.CryptoJsDecode(encryptionKey));
      DecryptedBuffer(decrypted);
      Some(Hex.BufferFromHex(Hex.Encode(Content(decrypted))))
  }

  // ---------------------------------------------------------------------------
  // Properties

  /** `iv.concat(ciphertext)` holds the IV's bytes followed by the ciphertext's bytes, and
      its byte count is 12 plus the ciphertext's. */
  lemma CombinedContent(ivRandom: seq<byte>, ciphertext: WordArray)
    requires |ivRandom| == IvBytes && ciphertext.sigBytes >= 0
    ensures Concat(FromBytes(ivRandom), ciphertext).sigBytes == IvBytes + ciphertext.sigBytes
    ensures Content(Concat(FromBytes(ivRandom), ciphertext)) == ivRandom + Content(ciphertext)
  {
    ConcatContent(FromBytes(ivRandom), ciphertext);
    ContentOfFromBytes(ivRandom);
  }

  /** The hex text of the combined array parses back to the IV's bytes followed by the
      ciphertext's. */
  lemma EncryptedHex(aes: CryptoJsAes, file: seq<byte>, keyRandom: seq<byte>, ivRandom: seq<byte>)
    requires |keyRandom| == KeyBytes && |ivRandom| == IvBytes
    ensures var ciphertext := aes.encrypt(Content(FromBytes(keyRandom)), Content(FromBytes(ivRandom)), Content(FromBytes(file)));
      && ciphertext == aes.encrypt(keyRandom, ivRandom, file)
      && Base64.Encode(Content(FromBytes(keyRandom))) == Base64.Encode(keyRandom)
      && (ciphertext.sigBytes >= 0 ==>
            Hex.Decode(Hex.Encode(Content(Concat(FromBytes(ivRandom), ciphertext)))) == Some(ivRandom + Content(ciphertext)))
  {
    ContentOfFromBytes(keyRandom);
    ContentOfFromBytes(ivRandom);
    ContentOfFromBytes(file);
    var ciphertext := aes.encrypt(keyRandom, ivRandom, file);
    var combined := Concat(FromBytes(ivRandom), ciphertext);
    if ciphertext.sigBytes >= 0 {
      CombinedContent(ivRandom, ciphertext);
      Hex.DecodeEncode(Content(combined));
    }
  }

  /** The hex text has two lowercase digits per byte of the combined array. */
  lemma EncryptedDataDigits(aes: CryptoJsAes, file: seq<byte>, keyRandom: seq<byte>, ivRandom: seq<byte>)
    requires aes.encrypt(keyRandom, ivRandom, file).sigBytes >= 0
    requires |keyRandom| == KeyBytes && |ivRandom| == IvBytes
    ensures var text := EncryptFile(aes, file, keyRandom, ivRandom).encryptedData;
      && |text| == 2 * (IvBytes + Size(aes.encrypt(keyRandom, ivRandom, file)))
      && forall i :: 0 <= i < |text| ==> Hex.IsLowerHexDigit(text[i])
  {
    var r := EncryptFile(aes, file, keyRandom, ivRandom);
    var combined := Concat(FromBytes(ivRandom), aes.encrypt(keyRandom, ivRandom, file));
    ContentOfFromBytes(keyRandom);
    ContentOfFromBytes(ivRandom);
    ContentOfFromBytes(file);
    CombinedContent(ivRandom, aes.encrypt(keyRandom, ivRandom, file));
    assert r.encryptedData == Hex.Encode(Content(combined));
  }

  /** The script's slicing of the parsed bytes: the first three words with 12 significant
      bytes hold the first 12 bytes, and the remaining words with `sigBytes - 12` hold
      the rest. Word slicing matches byte slicing because 12 is a multiple of 4. When
      there are fewer than 12 bytes, the ciphertext's byte count is negative and it
      holds no bytes. */
  lemma SliceCombined(bytes: seq<byte>)
    ensures |bytes| >= IvBytes ==> Content(TakeWords(FromBytes(bytes), IvWords)) == bytes[..IvBytes]
    ensures |bytes| >= IvBytes ==> Content(DropWords(FromBytes(bytes), IvWords)) == bytes[IvBytes..]
    ensures |bytes| < IvBytes ==>
      Content(TakeWords(FromBytes(bytes), IvWords)) == bytes + seq(IvBytes - |bytes|, _ => 0)
    ensures |bytes| < IvBytes ==> Content(DropWords(FromBytes(bytes), IvWords)) == []
  {
    if |bytes| >= IvBytes {
      SliceAtWord(FromBytes(bytes), IvWords);
      ContentOfFromBytes(bytes);
    } else {
      ShortIv(bytes);
    }
  }

  /** With fewer than 12 parsed bytes, the three IV words hold those bytes and then zeros:
      a word past the end of the array reads as 0. */
  lemma ShortIv(bytes: seq<byte>)
    requires |bytes| < IvBytes
    ensures Content(TakeWords(FromBytes(bytes), IvWords)) == bytes + seq(IvBytes - |bytes|, _ => 0)
  {
    var wa := FromBytes(bytes);
    var front := TakeWords(wa, IvWords);
    assert front.words == wa.words;
    forall i | 0 <= i < IvBytes
      ensures Content(front)[i] == (bytes + seq(IvBytes - |bytes|, _ => 0))[i]
    {
      FromBytesByteAt(bytes, i);
    }
  }

  /** The exported key reads back, through `Base64.parse`, as the 32 random bytes. */
  lemma KeyRoundTrip(keyRandom: seq<byte>)
    requires |keyRandom| == KeyBytes
    ensures Content(FromBytes(Base64.CryptoJsDecode(Base64.Encode(Content(FromBytes(keyRandom)))))) == keyRandom
  {
    ContentOfFromBytes(keyRandom);
    Base64.CryptoJsDecodeOfEncode(keyRandom);
    ContentOfFromBytes(keyRandom);
  }

  /** `Buffer.from(decrypted.toString(Hex), 'hex')` holds the decrypted bytes. */
  lemma DecryptedBuffer(decrypted: WordArray)
    ensures Hex.BufferFromHex(Hex.Encode(Content(decrypted))) == Content(decrypted)
  {
    Hex.DecodeEncode(Content(decrypted));
  }

  /** `decryptFile` undoes `encryptFile`: it returns the file's bytes. */
  lemma DecryptEncrypted(aes: CryptoJsAes, file: seq<byte>, keyRandom: seq<byte>, ivRandom: seq<byte>)
    requires Inverts(aes)
    requires |keyRandom| == KeyBytes && |ivRandom| == IvBytes
    ensures var out := EncryptFile(aes, file, keyRandom, ivRandom);
      DecryptFile(aes, out.encryptedData, out.encryptionKey) == Some(file)
  {
    var out := EncryptFile(aes, file, keyRandom, ivRandom);
    var ciphertext := aes.encrypt(keyRandom, ivRandom, file);
    var bytes := ivRandom + Content(ciphertext);
    assert Hex.Decode(out.encryptedData) == Some(bytes);
    SliceCombined(bytes);
    assert bytes[..IvBytes] == ivRandom && bytes[IvBytes..] == Content(ciphertext);
    Base64.CryptoJsDecodeOfEncode(keyRandom);
    ContentOfFromBytes(keyRandom);
    var decrypted := aes.decrypt(keyRandom, ivRandom, Content(ciphertext));
    assert Content(decrypted) == file;
    DecryptedBuffer(decrypted);
  }
}
