/**
 * The browser's file encryption (`encryptFile` and `decryptFile` in
 * frontend/src/utils/encryption.ts): a fresh 256-bit AES-GCM key and a 12-byte IV,
 * the payload laid out as IV followed by the cipher's output, and the raw key carried
 * as Base64 text made by `btoa` and read back by `atob`.
 *
 * The cipher and the random sources are not modelled: the cipher is a pair of
 * functions handed in as a value, and the random key and IV are parameters.
 */
module Encryption {
  import opened Wrappers
  import opened Bytes
  import Base64

  /** AES-256: the generated key has 256 bits. */
  const KeyLength: nat := 32

  /** The IV is 96 bits, the length AES-GCM is built for. */
  const IvLength: nat := 12

  /** `crypto.subtle.encrypt` and `crypto.subtle.decrypt` with AES-GCM, as functions of the
      raw key, the IV and the data. `open` yields None where decrypt rejects its input
      with an OperationError (a tag that does not match, a ciphertext shorter than the
      tag). */
  datatype AesGcm = AesGcm(
    seal: (seq<byte>, seq<byte>, seq<byte>) -> seq<byte>,
    open: (seq<byte>, seq<byte>, seq<byte>) -> Option<seq<byte>>)

  /** What the proofs take for granted of the cipher: decryption under the same key and
      IV undoes encryption. */
  ghost predicate Inverts(gcm: AesGcm) {
    forall key, iv, plain :: gcm.open(key, iv, gcm.seal(key, iv, plain)) == Some(plain)
  }

  /** The exceptions `decryptFile` can reject with, in the order its steps can raise them. */
  datatype DecryptError =
    | InvalidCharacterError  // atob: the key text is not Base64
    | DataError              // importKey: the raw key is not 128, 192 or 256 bits
    | OperationError         // decrypt: the cipher rejects the data

  // ---------------------------------------------------------------------------
  // encryptFile

  /** `TypedArray.prototype.set(src, offset)`: copies src into target from offset on. */
  method SetBytes(target: array<byte>, src: seq<byte>, offset: nat)
    requires offset + |src| <= target.Length
    modifies target
    ensures target[..offset] == old(target[..offset])
    ensures target[offset..offset + |src|] == src
    ensures target[offset + |src|..] == old(target[offset + |src|..])
  {
    var i := 0;
    while i < |src|
      invariant 0 <= i <= |src|
      invariant target[..offset] == old(target[..offset])
      invariant target[offset..offset + i] == src[..i]
      invariant target[offset + |src|..] == old(target[offset + |src|..])
    {
      target[offset + i] := src[i];
      i := i + 1;
    }
  }

  /** The payload `encryptFile` returns for a file, a raw key and an IV. */
  function Payload(gcm: AesGcm, file: seq<byte>, rawKey: seq<byte>, iv: seq<byte>): (data: seq<byte>)
    ensures |data| == |iv| + |gcm.seal(rawKey, iv, file)|
    ensures data[..|iv|] == iv && data[|iv|..] == gcm.seal(rawKey, iv, file)
  {
    iv + gcm.seal(rawKey, iv, file)
  }

  /** The key text `encryptFile` returns for a raw key: `btoa` of the key's bytes taken
      as characters, which is the Base64 encoding of the bytes. */
  function ExportedKey(rawKey: seq<byte>): (text: string)
    ensures Base64.Btoa(Base64.FromCharCodes(rawKey)) == Ok(text)
    ensures |text| == 4 * ((|rawKey| + 2) / 3)
  {
    Base64.AtobOfBtoa(rawKey);
    Base64.Encode(rawKey)
  }

  /** `encryptFile(file)` with the generated key and IV given: encrypts the file and lays
      out IV and ciphertext in one new buffer, and exports the key as Base64. */
  method EncryptFile(gcm: AesGcm, file: seq<byte>, rawKey: seq<byte>, iv: seq<byte>)
    returns (encryptedData: array<byte>, encryptionKey: string)
    requires |rawKey| == KeyLength && |iv| == IvLength
    ensures fresh(encryptedData)
    ensures encryptedData.Length == IvLength + |gcm.seal(rawKey, iv, file)|
    ensures encryptedData[..IvLength] == iv
    ensures encryptedData[IvLength..] == gcm.seal(rawKey, iv, file)
    ensures encryptedData[..] == Payload(gcm, file, rawKey, iv)
    ensures encryptionKey == ExportedKey(rawKey)
  {
    var exported := Base64.Btoa(Base64.FromCharCodes(rawKey));
    assert exported == Ok(ExportedKey(rawKey));
    encryptionKey := exported.value;
    var sealed := gcm.seal(rawKey, iv, file);
    encryptedData := new byte[|iv| + |sealed|];
    SetBytes(encryptedData, iv, 0);
    SetBytes(encryptedData, sealed, |iv|);
    assert encryptedData[..] == encryptedData[..|iv|] + encryptedData[|iv|..];
  }

  // ---------------------------------------------------------------------------
  // decryptFile

  /** `encryptedData.slice(0, 12)` and `encryptedData.slice(12)`; slice clamps both ends
      to the buffer, so a short buffer gives a short IV and no ciphertext. */
  function Split(data: seq<byte>): (parts: (seq<byte>, seq<byte>))
    ensures |parts.0| == if |data| < IvLength then |data| else IvLength
    ensures parts.0 + parts.1 == data
  {
    if |data| < IvLength then (data, [])
    else (data[..IvLength], data[IvLength..])
  }

  /** `Uint8Array.from(atob(text), c => c.charCodeAt(0))`. */
  function DecodeKey(text: string): (r: Result<seq<byte>, DecryptError>)
    ensures r.Err? <==> Base64.Atob(text).Err?
    ensures r.Ok? ==> |r.value| == |Base64.Atob(text).value|
  {
    match Base64.Atob(text)
    case Err(_) => Err(InvalidCharacterError)
    case Ok(s) => Ok(Base64.CharCodes(s))
  }

  /** `importKey('raw', …, 'AES-GCM')` accepts 16-, 24- and 32-byte keys; the `length`
      member of the algorithm argument plays no part in an import. */
  predicate ImportableLength(n: nat) {
    n == 16 || n == 24 || n == 32
  }

  /** `decryptFile(encryptedData, encryptionKey)`. */
  function DecryptFile(gcm: AesGcm, encryptedData: seq<byte>, encryptionKey: string): (r: Result<seq<byte>, DecryptError>)
    ensures r == Err(InvalidCharacterError) <==> DecodeKey(encryptionKey).Err?
    ensures r == Err(DataError) <==>
      DecodeKey(encryptionKey).Ok? && !ImportableLength(|DecodeKey(encryptionKey).value|)
    ensures r.Ok? ==>
      gcm.open(DecodeKey(encryptionKey).value, Split(encryptedData).0, Split(encryptedData).1) == Some(r.value)
    ensures DecodeKey(encryptionKey).Ok? && ImportableLength(|DecodeKey(encryptionKey).value|) ==>
      (r == Err(OperationError) <==>
        gcm.open(DecodeKey(encryptionKey).value, Split(encryptedData).0, Split(encryptedData).1).None?)
  {
    match DecodeKey(encryptionKey)
    case Err(e) => Err(e)
    case Ok(keyData) =>
      if !ImportableLength(|keyData|) then Err(DataError)
      else
        var (iv, encrypted) := Split(encryptedData);
        match gcm.open(keyData, iv, encrypted)
        case None => Err(OperationError)
        case Some(plain) => Ok(plain)
  }

  // ---------------------------------------------------------------------------
  // Properties

  /** Splitting a payload at byte 12 gives back the IV and the cipher output. */
  lemma SplitPayload(gcm: AesGcm, file: seq<byte>, rawKey: seq<byte>, iv: seq<byte>)
    requires |iv| == IvLength
    ensures Split(Payload(gcm, file, rawKey, iv)) == (iv, gcm.seal(rawKey, iv, file))
  {
    var data := Payload(gcm, file, rawKey, iv);
    assert data[..IvLength] == iv;
  }

  /** Decoding an exported key gives back the raw key, whatever its length. */
  lemma DecodeExportedKey(rawKey: seq<byte>)
    ensures DecodeKey(ExportedKey(rawKey)) == Ok(rawKey)
  {
    Base64.AtobOfBtoa(rawKey);
    Base64.CharCodesOfFromCharCodes(rawKey);
  }

  /** `decryptFile` undoes `encryptFile`: given the payload and the key text that
      encryptFile returned, it yields the file's bytes. */
  lemma DecryptEncrypted(gcm: AesGcm, file: seq<byte>, rawKey: seq<byte>, iv: seq<byte>)
    requires Inverts(gcm)
    requires |rawKey| == KeyLength && |iv| == IvLength
    ensures DecryptFile(gcm, Payload(gcm, file, rawKey, iv), ExportedKey(rawKey)) == Ok(file)
  {
    DecodeExportedKey(rawKey);
    SplitPayload(gcm, file, rawKey, iv);
    assert gcm.open(rawKey, iv, gcm.seal(rawKey, iv, file)) == Some(file);
  }
}
