# SFS client-side encryption and key vault, in Dafny

SFS (secure file sharing) encrypts a file before it leaves the user's machine. The
encrypted bytes go to IPFS, and the key stays behind. This project models the three
pieces of SFS that do that work, and proves what they promise:

- **The browser's key vault** (`frontend/src/utils/keyManager.ts`). Each file's key is
  kept in `localStorage` under the name `sfs_key_<fileId>`, as a `KeyEntry`. The
  operations are `storeKey`, `getKey`, `getAllKeys` and `deleteKey`, plus the `trim`
  that `importKey` applies to a key read from a file. `localStorage` is a class whose
  methods update its names and items in place (`web_storage.dfy`). The vault's
  operations are methods on it. Each method is proved against a function of the stored
  items (`Lookup`, `Stored`, `Deleted`, `Listed`), and lemmas state the vault's
  properties about those functions:
  - lookup after store, and overwrite;
  - a store or delete touches only its own slot;
  - delete gives null, and deleting again changes nothing;
  - `getAllKeys` lists exactly one entry per slot.
- **The browser's file encryption** (`frontend/src/utils/encryption.ts`).
  `encryptFile` writes the 12-byte IV followed by the AES-GCM output into one new
  buffer (a method over an `array`). It exports the 32-byte raw key as `btoa` text.
  `decryptFile` reads the key back with `atob`, has `importKey` check its length,
  slices the buffer at byte 12 and decrypts. The WHATWG `atob` and `btoa` are modelled
  exactly (`base64.dfy`). The end-to-end lemma proves that `decryptFile` undoes
  `encryptFile`.
- **The Node script** (`smart-contract/scripts/encryptFile.js`, built on crypto-js). It
  generates a random key and IV as word arrays and exports the key as Base64. It
  concatenates the IV and the ciphertext, and writes the result out as lowercase hex.
  Decryption parses the hex, takes the first three words as the IV and the remaining
  words (with `sigBytes - 12` bytes) as the ciphertext, and decrypts. It then turns the
  result into a Buffer through hex.
  - crypto-js's `WordArray` is modelled as 32-bit big-endian words plus a byte count
    (`word_array.dfy`), with `clamp`, both branches of `concat`, and the word slices the
    script makes.
  - Hex follows section 8 of RFC 4648 (`hex.dfy`). Base64 follows section 4 of
    RFC 4648, plus crypto-js's own `Base64.parse`.
  - The end-to-end lemma is the round trip that `smart-contract/scripts/testDecrypt.js`
    checks.

Both ciphers are values that hold functions: `seal`/`open` for Web Crypto, and
`encrypt`/`decrypt` for crypto-js. What the proofs take for granted about a cipher is
stated as a predicate `Inverts`, and every lemma that uses it names it in a `requires`
clause. For Web Crypto it says that decryption under the same key and IV undoes
encryption. For crypto-js it says that too, and also that every ciphertext's byte count
(`sigBytes`) is not negative. Random bytes and `Date.now()` are parameters.

Modules: `Wrappers` (Option, Result), `Bytes`, `Base64`, `Hex`, `WordArrays`,
`WebStorage`, `KeyManager`, `Encryption` and `EncryptFileScript`.

## Model

| member | source | states |
|---|---|---|
| KeyManager.SlotName | frontend/src/utils/keyManager.ts:19 | the slot name starts with `sfs_key_`, and the file id is read back from it |
| KeyManager.SlotNameInjective | frontend/src/utils/keyManager.ts:24 | two file ids share a slot name exactly when they are equal |
| KeyManager.SlotNameOfSlotId | frontend/src/utils/keyManager.ts:37 | every name passing the `startsWith('sfs_key_')` test is the slot of the id after the prefix |
| KeyManager.StoreKey | frontend/src/utils/keyManager.ts:12-20 | the slot for fileId now holds the entry {fileId, key, fileName, now}; every other item is unchanged; a new name is appended to the enumeration order; storage stays well formed |
| KeyManager.GetKey | frontend/src/utils/keyManager.ts:23-30 | returns the key of the entry in the id's slot; null when the slot is missing or empty; an error when the slot holds text that is not an entry |
| KeyManager.DeleteKey | frontend/src/utils/keyManager.ts:48-50 | the id's slot is removed and nothing else; the name leaves the enumeration order |
| KeyManager.GetAllKeys | frontend/src/utils/keyManager.ts:33-45 | the loop over `localStorage.key(i)` returns, in enumeration order, the entry of each slot name it meets; it skips other names and empty items; it stops with an error at a slot that is not an entry |
| KeyManager.LookupStored | frontend/src/utils/keyManager.ts:19-27 | after storeKey(id, k, …), getKey(id) returns k |
| KeyManager.StoredFrame | frontend/src/utils/keyManager.ts:19 | storeKey changes no other id's lookup, and no item outside its own slot |
| KeyManager.StoredTwice | frontend/src/utils/keyManager.ts:19 | a second storeKey for the same id replaces the first; the last write wins |
| KeyManager.LookupMissing | frontend/src/utils/keyManager.ts:24-29 | getKey returns null when the id has no slot |
| KeyManager.DeletedProperties | frontend/src/utils/keyManager.ts:48-50 | after deleteKey(id), getKey(id) is null; deleting twice equals deleting once; deleting an absent id leaves the items as they were |
| KeyManager.DeletedFrame | frontend/src/utils/keyManager.ts:49 | deleteKey changes no other id's lookup |
| KeyManager.WithoutAbsent | frontend/src/utils/keyManager.ts:49 | deleting an absent id leaves the enumeration order as it was |
| KeyManager.VaultInvPreserved | frontend/src/utils/keyManager.ts:13-19 | storeKey and deleteKey keep every slot holding an entry whose fileId is the slot's own id |
| KeyManager.LookupUnderInv | frontend/src/utils/keyManager.ts:23-30 | under that invariant getKey never fails; it finds a key exactly when the slot exists, and the key is that of the slot's entry |
| KeyManager.ListedStaysErr | frontend/src/utils/keyManager.ts:40 | once a `JSON.parse` in the walk has failed, the names after it do not change the outcome |
| KeyManager.ListedEntries | frontend/src/utils/keyManager.ts:33-45 | under the invariant getAllKeys succeeds; an entry is listed exactly when it sits in its own enumerated slot; every such slot's entry is listed; no two listed entries share a fileId |
| KeyManager.TrimStart | frontend/src/utils/keyManager.ts:71 | the result is a suffix of the text; only whitespace was removed; the result does not start with whitespace |
| KeyManager.TrimEnd | frontend/src/utils/keyManager.ts:71 | the result is a prefix of the text; only whitespace was removed; the result does not end with whitespace |
| KeyManager.Trim | frontend/src/utils/keyManager.ts:71 | `key.trim()` is no longer than the text, and the result neither starts nor ends with whitespace |
| KeyManager.TrimIsSlice | frontend/src/utils/keyManager.ts:71 | `key.trim()` is the slice of the text that starts after its leading whitespace; everything before and after that slice is whitespace |
| KeyManager.TrimSurrounded | frontend/src/utils/keyManager.ts:71 | text that neither starts nor ends with whitespace survives `trim()` whatever whitespace surrounds it |
| KeyManager.ImportExportedKey | frontend/src/utils/keyManager.ts:66-76 | a Base64 key read back by importKey is the key that was written, even with whitespace around it |
| WebStorage.Without | frontend/src/utils/keyManager.ts:49 | the names left are exactly the old ones other than the removed name |
| WebStorage.LocalStorage.Length | frontend/src/utils/keyManager.ts:35 | `localStorage.length` is the number of stored names |
| WebStorage.LocalStorage.Key | frontend/src/utils/keyManager.ts:36 | `key(i)` is a stored name for 0 <= i < length, and null otherwise |
| WebStorage.LocalStorage.GetItem | frontend/src/utils/keyManager.ts:24 | `getItem(name)` is the item stored under name, and null exactly when there is none |
| WebStorage.LocalStorage.SetItem | frontend/src/utils/keyManager.ts:19 | only the item under name changes; a new name is appended to the order; names stay distinct and match the items |
| WebStorage.LocalStorage.RemoveItem | frontend/src/utils/keyManager.ts:49 | the item under name and its place in the order are gone; nothing else changes |
| Encryption.SetBytes | frontend/src/utils/encryption.ts:36-37 | `set(src, offset)` copies src to the offset; the bytes before and after it are unchanged |
| Encryption.Payload | frontend/src/utils/encryption.ts:35-37 | the payload is IV-length plus cipher-output-length bytes long; the IV is its prefix and the cipher output the rest |
| Encryption.ExportedKey | frontend/src/utils/encryption.ts:16 | `btoa(String.fromCharCode(...rawKey))` succeeds for every raw key, and its text is the Base64 encoding, 4⌈n/3⌉ characters long |
| Encryption.EncryptFile | frontend/src/utils/encryption.ts:3-43 | the buffer is newly allocated and holds the 12-byte IV followed by the cipher output of the file under the 32-byte key and that IV; the key text is the exported key |
| Encryption.Split | frontend/src/utils/encryption.ts:62-63 | `slice(0, 12)` and `slice(12)` split the data: the first part is 12 bytes (or all of a shorter buffer), and the two parts joined give back the data |
| Encryption.DecodeKey | frontend/src/utils/encryption.ts:47 | fails with InvalidCharacterError exactly when `atob` throws; otherwise gives one byte per decoded character |
| Encryption.DecryptFile | frontend/src/utils/encryption.ts:45-76 | InvalidCharacterError exactly when the key text is not Base64; DataError exactly when the key is not 16, 24 or 32 bytes; with an importable key, OperationError exactly when the cipher rejects the data after byte 12 under the IV in bytes 0-11, and otherwise the result is the opened plaintext |
| Encryption.SplitPayload | frontend/src/utils/encryption.ts:62-63 | splitting a payload at 12 gives back the IV and the cipher output |
| Encryption.DecodeExportedKey | frontend/src/utils/encryption.ts:47 | decoding the exported key text gives back the raw key |
| Encryption.DecryptEncrypted | frontend/src/utils/encryption.ts:45-76 | for a cipher whose decryption undoes its encryption, decryptFile on encryptFile's output returns the file |
| Base64.Encode | smart-contract/scripts/encryptFile.js:13 | the encoding is 4⌈n/3⌉ characters of the Base64 alphabet and '=' |
| Base64.DecodeEncodeUnpadded | frontend/src/utils/encryption.ts:47 | decoding the unpadded groups of an encoding gives back the bytes |
| Base64.FromCharCodes | frontend/src/utils/encryption.ts:16 | `String.fromCharCode(...bytes)`: one character per byte, with the byte's value as its code |
| Base64.CharCodes | frontend/src/utils/encryption.ts:47 | `Uint8Array.from(s, c => c.charCodeAt(0))`: one byte per character, equal to the code below 256 |
| Base64.CharCodesOfFromCharCodes | frontend/src/utils/encryption.ts:16 | char codes undo fromCharCode on every byte string |
| Base64.Btoa | frontend/src/utils/encryption.ts:16 | `btoa` throws exactly when some character's code is above 255 |
| Base64.Atob | frontend/src/utils/encryption.ts:47 | every character `atob` returns stands for a byte |
| Base64.RemoveWhitespaceNone | frontend/src/utils/encryption.ts:47 | text without ASCII whitespace passes atob's whitespace removal unchanged |
| Base64.StripPaddingOfEncode | frontend/src/utils/encryption.ts:47 | atob's padding removal takes an encoding back to its unpadded groups |
| Base64.AtobOfBtoa | frontend/src/utils/encryption.ts:16 | btoa accepts every byte string and yields its encoding; atob reads that encoding back as the same characters |
| Base64.AtobOfEncode | frontend/src/utils/encryption.ts:47 | atob accepts every encoding and yields the characters for the encoded bytes |
| Base64.BeforePadding | smart-contract/scripts/encryptFile.js:54 | the text `Base64.parse` reads is the prefix before the first '=' |
| Base64.CryptoJsDecode | smart-contract/scripts/encryptFile.js:54 | `Base64.parse` yields one byte for every position before the first '=' that is not a multiple of 4 |
| Base64.CryptoJsDecodeOfEncode | smart-contract/scripts/encryptFile.js:54 | crypto-js's `Base64.parse` undoes the encoding |
| Hex.Digit | smart-contract/scripts/encryptFile.js:32 | a nibble's digit is a lowercase hexadecimal digit whose value is the nibble |
| Hex.Encode | smart-contract/scripts/encryptFile.js:32 | `Hex.stringify`: two lowercase hexadecimal digits per byte |
| Hex.BufferFromHex | smart-contract/scripts/encryptFile.js:68 | `Buffer.from(text, 'hex')` gives at most one byte per two characters |
| Hex.Decode | smart-contract/scripts/encryptFile.js:45 | `Hex.parse` gives bytes exactly when the text is an even number of hexadecimal digits |
| Hex.DecodeLength | smart-contract/scripts/encryptFile.js:45 | on well-formed text every pair of digits becomes one byte |
| Hex.DecodeEncode | smart-contract/scripts/encryptFile.js:68 | both `Hex.parse` and `Buffer.from(…, 'hex')` read `Hex.stringify`'s output back as the same bytes |
| Hex.EncodeDecode | smart-contract/scripts/encryptFile.js:32 | lowercase hex of even length is the encoding of the bytes it decodes to |
| WordArrays.Content | smart-contract/scripts/encryptFile.js:32 | a word array holds as many bytes as its byte count, and none when the count is negative |
| WordArrays.Pack | smart-contract/scripts/encryptFile.js:19 | four bytes packed into one word read back big-endian |
| WordArrays.FromBytes | smart-contract/scripts/encryptFile.js:19 | the word array built from n bytes has byte count n and ⌈n/4⌉ words |
| WordArrays.ContentOfFromBytes | smart-contract/scripts/encryptFile.js:19 | packing bytes into words loses none of them |
| WordArrays.FromBytesByteAt | smart-contract/scripts/encryptFile.js:45 | the words built from some bytes hold those bytes and then zeros, past the byte count too |
| WordArrays.Clamp | smart-contract/scripts/encryptFile.js:29 | `clamp()` keeps the byte count and keeps only the words that hold significant bytes |
| WordArrays.ClampBytes | smart-contract/scripts/encryptFile.js:29 | after `clamp()` the significant bytes are unchanged and every byte after them is 0 |
| WordArrays.Concat | smart-contract/scripts/encryptFile.js:29 | the byte count of `a.concat(b)` is the sum of the two counts |
| WordArrays.ConcatContent | smart-contract/scripts/encryptFile.js:29 | the bytes of `a.concat(b)` are a's bytes followed by b's, in the word-aligned branch and in the byte-by-byte branch |
| WordArrays.TakeWords | smart-contract/scripts/encryptFile.js:48 | `create(words.slice(0, 3), 12)` has byte count 12 |
| WordArrays.DropWords | smart-contract/scripts/encryptFile.js:51 | `create(words.slice(3), sigBytes - 12)` has the remaining byte count |
| WordArrays.SliceAtWord | smart-contract/scripts/encryptFile.js:48-51 | slicing the words after word n slices the bytes after byte 4n |
| EncryptFileScript.EncryptFile | smart-contract/scripts/encryptFile.js:5-38 | the key text is the Base64 encoding of the 32 random bytes; the hex text parses back to the 12 IV bytes followed by the ciphertext's bytes |
| EncryptFileScript.DecryptFile | smart-contract/scripts/encryptFile.js:43-71 | yields a buffer exactly when the text is well-formed hex; the buffer holds the decryption, under the key `Base64.parse` reads, of the parsed bytes after the first 12, with those 12 as the IV; with fewer than 12 parsed bytes the IV is those bytes zero-filled and the ciphertext is empty |
| EncryptFileScript.CombinedContent | smart-contract/scripts/encryptFile.js:29 | `iv.concat(ciphertext)` has 12 plus the ciphertext's byte count, and holds the IV's bytes followed by the ciphertext's |
| EncryptFileScript.EncryptedHex | smart-contract/scripts/encryptFile.js:29-32 | the cipher sees the file's, key's and IV's own bytes, and the combined hex parses back to IV followed by ciphertext |
| EncryptFileScript.EncryptedDataDigits | smart-contract/scripts/encryptFile.js:32 | for a ciphertext whose byte count is not negative, the hex text has 2·(12 + ciphertext length) characters, all lowercase hexadecimal digits |
| EncryptFileScript.SliceCombined | smart-contract/scripts/encryptFile.js:48-51 | the three-word IV holds the first 12 bytes and the rest holds bytes 12 onward; when fewer than 12 bytes are parsed, the IV holds them followed by zeros and the ciphertext is empty |
| EncryptFileScript.ShortIv | smart-contract/scripts/encryptFile.js:48 | with fewer than 12 parsed bytes, the 12-byte IV is those bytes followed by zeros |
| EncryptFileScript.KeyRoundTrip | smart-contract/scripts/encryptFile.js:54 | `Base64.parse` of the exported key gives back the 32 random bytes |
| EncryptFileScript.DecryptedBuffer | smart-contract/scripts/encryptFile.js:68 | `Buffer.from(decrypted.toString(Hex), 'hex')` holds exactly the decrypted bytes |
| EncryptFileScript.DecryptEncrypted | smart-contract/scripts/testDecrypt.js:12-19 | for a cipher whose decryption undoes its encryption, decryptFile on encryptFile's output returns the file's bytes |

## Left out

- The ciphers are not modelled: AES-GCM in Web Crypto and AES in crypto-js. They are parameters, and what is taken for granted about them is `Inverts`: decryption undoes encryption and, for crypto-js, no ciphertext has a negative byte count. The GCM authentication tag and tamper detection are therefore not modelled, and neither is a minimum payload length that includes the tag.
- The script passes `mode: crypto.mode.GCM`, but crypto-js ships no GCM mode, so that option is undefined. As crypto-js's cipher core reads (a reading of its code; nothing here was executed), `cfg.extend` copies the undefined mode and `BlockCipher.reset` then calls `mode.createEncryptor` or `mode.createDecryptor` on it. So `AES.encrypt` (smart-contract/scripts/encryptFile.js:21) and `AES.decrypt` (smart-contract/scripts/encryptFile.js:56) would both throw a TypeError, and the script's own round trip cannot succeed as written. The model takes the script's cipher as a parameter, as it does the browser's. The proved round trip (`EncryptFileScript.DecryptEncrypted`) is that of the script with a working cipher mode.
- Randomness is not modelled: `generateKey`, `crypto.getRandomValues` and `WordArray.random`. The random bytes are parameters. `Date.now()` in `storeKey` is the parameter `now`.
- I/O is not modelled: reading the file (`file.arrayBuffer()`, `fs.readFileSync`), `exportKey`'s Blob download, and `importKey`'s FileReader. Only the `trim()` that `importKey` applies is modelled.
- `JSON.stringify`/`JSON.parse` in the vault are treated as identity on `KeyEntry`, and an absent `fileName` is None. A slot may also hold text the vault did not write.
- KeyManager.GetKey: text in a slot that is not an entry's JSON gives the error `NotAnEntry`. The model does not say whether `JSON.parse` throws or yields some other value there.
- KeyManager.GetAllKeys: the same holds when the walk meets such a slot. It stops with `NotAnEntry`, as a throw would end the loop.
- KeyManager.StoreKey: exceptions from `setItem` (storage quota, storage disabled) are not modelled.
- WebStorage.LocalStorage.Key: the order `key(i)` enumerates names in is up to the browser. The model fixes insertion order, and no property proved about the vault depends on it.
- Encryption.SetBytes: requires the copy to fit in the buffer. `set` would throw a RangeError otherwise, but `encryptFile` always sizes the buffer to fit.
- Encryption.EncryptFile: the generated key always has 32 bytes and the IV 12, so the method requires those lengths.
- Encryption.DecryptFile: when the cipher rejects the data, the result is `OperationError`, with nothing said about why.
- Hex.Decode: crypto-js's `Hex.parse` is modelled only on text that is an even number of hexadecimal digits, and yields None otherwise. The library itself reads `parseInt` of each pair and gives garbage bytes for such text.
- EncryptFileScript.DecryptFile: because of that, it yields None for malformed hex instead of decrypting garbage. The proved round trip never meets such text.
- EncryptFileScript.EncryptFile: the promise that the hex parses back to IV plus ciphertext holds only when the ciphertext's byte count is not negative. The cipher is a parameter, and crypto-js never produces a negative count.
- WordArrays.Concat: requires the left array's byte count to be non-negative. The script only concatenates onto the 12-byte IV. A count of -4 or below would make `clamp` set a negative array length and throw; a count from -1 to -3 would leave it with no words, a case the model does not cover.
- Not modelled at all: `frontend/src/utils/nftStorage.ts` (network I/O), the React pages and components, the wagmi configuration, and the Hardhat scripts and tests. These lie outside the encryption and key-management core.
