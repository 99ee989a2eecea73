# Password-based encryption envelope of MyTimeline

This Dafny project models `src/lib/crypto.ts`, the password-based encryption
routine of the MyTimeline application, and proves properties of it.

- `encryptWithPassword` draws a 16-byte salt and a 12-byte IV. It derives an
  AES-GCM key from the password with PBKDF2 and encrypts the UTF-8 bytes of
  the text. It lays out `salt || iv || ciphertext-and-tag` and returns that
  buffer as Base64.
- `decryptWithPassword` reverses this. It Base64-decodes the text and cuts the
  bytes at the fixed offsets 16 and 28. It re-derives the key from the salt
  found there and AES-GCM-decrypts the rest.
- `deriveKeyFromPassword` fixes the key-derivation parameters:
  PBKDF2 (section 5.2 of RFC 8018) with HMAC-SHA-256, 100,000 iterations and
  a 128-bit AES-GCM key (NIST SP 800-38D).

Modules, one per concept:

| file | module | contents |
|---|---|---|
| `results.dfy` | `Results` | `Option`, `Result`, and the two DOMException names that can reach the caller |
| `typed_arrays.dfy` | `TypedArrays` | `byte`, `Uint8Array.slice` with its index clamping, `Uint8Array.set`, zeroed allocation |
| `base64.dfy` | `Base64` | padded Base64 encoding (section 4 of RFC 4648), as `btoa` does it; the WHATWG forgiving-base64 decode, as `atob` does it |
| `binary_string.dfy` | `BinaryString` | `String.fromCharCode`, `btoa`, `atob`, and `Uint8Array.from(…, charCodeAt)` |
| `envelope.dfy` | `Envelope` | the byte layout: `Combine` (src/lib/crypto.ts lines 59-62) and `Split` (lines 69-71) |
| `web_crypto.dfy` | `WebCrypto` | the platform primitives as function values, and the assumptions `KdfSound`, `GcmSound` and `TextSound` make about them |
| `password_crypto.dfy` | `PasswordCrypto` | the three exported operations and the end-to-end properties |

The platform primitives are fields of a `Primitives` value, each a total
function. This covers PBKDF2, AES-GCM encrypt and decrypt, and
`TextEncoder`/`TextDecoder`. Because each field is a function, every
primitive is deterministic in its arguments. Each primitive has one ghost
predicate stating what is assumed about it:

- `KdfSound`: PBKDF2 returns `bits / 8` bytes.
- `GcmSound`, for a 16-, 24- or 32-byte key and a non-empty IV: AES-GCM
  decryption under the same key and IV inverts encryption, and the output is
  16 bytes longer than the input, because of the tag.
- `GcmSound`, for any key and IV: AES-GCM decryption rejects input shorter
  than the tag.
- `TextSound`: UTF-8 decoding inverts UTF-8 encoding. The exception is a
  decoder whose `ignoreBOM` option is false, as for `new TextDecoder()`. Such
  a decoder consumes a leading U+FEFF (the byte order mark), which
  `TextEncoder` writes out like any other character.

Each lemma requires only the predicates it uses. `WebCrypto.ToyPrimitivesSound`
proves the three predicates consistent by exhibiting a concrete
(non-cryptographic) suite that satisfies them.

The random salt and IV of `encryptWithPassword` become the `salt` and `iv`
arguments of `EncryptWithPassword`. Its precondition only says that they
have the lengths of the fixed-size arrays `crypto.getRandomValues` fills.

Failures are modelled as the code produces them. The code defines no error
types of its own and catches nothing. `atob` can throw `InvalidCharacterError`,
`crypto.subtle.decrypt` can reject with `OperationError`, and either one
propagates. A stricter design would add a length check before slicing that
rejects fewer than 28 bytes as malformed input, and would report text that is
not UTF-8. The code does neither. It slices whatever `atob` returns, leaves
short input for AES-GCM to reject, and decodes with a non-fatal
`TextDecoder`. The model follows the code.

## Model

| member | source | states |
|---|---|---|
| `TypedArrays.Slice` | src/lib/crypto.ts:69-71 | `slice(start, end)` yields `max(0, min(end,n) - min(start,n))` elements, element i being `s[start+i]` |
| `TypedArrays.SliceFrom` | src/lib/crypto.ts:71 | `slice(start)` yields `max(0, n - start)` elements, and for `start <= n` exactly the suffix from `start` |
| `TypedArrays.SliceFromZeroCopies` | src/lib/crypto.ts:28 | `slice(0)` copies the salt with unchanged contents |
| `TypedArrays.SetAt` | src/lib/crypto.ts:60-62 | `set(src, offset)` overwrites exactly `[offset, offset+|src|)` with `src` and leaves every other byte as it was |
| `TypedArrays.Zeros` | src/lib/crypto.ts:59 | `new Uint8Array(n)` has n elements, all zero |
| `Envelope.Combine` | src/lib/crypto.ts:59-62 | the combined buffer has length `|salt| + |iv| + |encrypted|`, with the salt at the front, the IV next and the encrypted bytes last |
| `Envelope.CombineIsConcatenation` | src/lib/crypto.ts:59-62 | the zeroed buffer filled by three `set` calls equals `salt + iv + encrypted` |
| `Envelope.Split` | src/lib/crypto.ts:69-71 | for decoded length n the slices have lengths `min(16,n)`, `min(12, max(0,n-16))` and `max(0,n-28)`, and together they are the whole input |
| `Envelope.SplitCombineIff` | src/lib/crypto.ts:59-71 | cutting at offsets 16 and 28 recovers exactly the combined salt, IV and ciphertext if and only if the salt and IV have the lengths those offsets assume |
| `Envelope.SplitCombine` | src/lib/crypto.ts:46-47 | with a 16-byte salt and a 12-byte IV, as encryption draws them, splitting undoes combining |
| `Envelope.CombineSplit` | src/lib/crypto.ts:69-71 | re-combining the three slices of any byte sequence, short ones included, gives it back |
| `Base64.CharOf` | src/lib/crypto.ts:63 | each 6-bit value maps to an alphabet character that maps back to the same value |
| `Base64.AlphabetIsTable1` | src/lib/crypto.ts:63-68 | the encoder writes value v as entry v of Table 1 of RFC 4648, spelled out as the 64-character string `Alphabet`, and the decoder reads each alphabet character as its position in that table |
| `Base64.Encode` | src/lib/crypto.ts:63 | `btoa` output has length `4 * ceil(n/3)` and holds only alphabet characters and `=` |
| `Base64.Rfc4648EncodeVectorsShort` | src/lib/crypto.ts:63 | the encoder maps "", "f", "fo" and "foo" to the encodings in section 10 of RFC 4648 |
| `Base64.Rfc4648EncodeVectorsLong` | src/lib/crypto.ts:63 | the encoder maps "foob", "fooba" and "foobar" to the encodings in section 10 of RFC 4648 |
| `Base64.Decode` | src/lib/crypto.ts:68 | `atob` succeeds only on text made of alphabet characters, ASCII whitespace and `=` (whose length, after whitespace and one or two trailing `=` are dropped, is not 1 mod 4) |
| `Base64.DecodeRejectsForeignChar` | src/lib/crypto.ts:68 | `atob` throws on any character that is not in the alphabet, not ASCII whitespace and not `=` |
| `Base64.DecodeAcceptsUnpadded` | src/lib/crypto.ts:68 | `atob` also accepts the encoding without its padding, and returns the same bytes |
| `Base64.Rfc4648DecodeVectors` | src/lib/crypto.ts:68 | "Zm9vYg==" and "Zm9vYmFy" decode to "foob" and "foobar" |
| `Base64.ForgivingDecodeDiscardsBits` | src/lib/crypto.ts:68 | "Zh==" decodes to "f" although its discarded bits are not zero |
| `Base64.ForgivingDecodeOptionalPadding` | src/lib/crypto.ts:68 | unpadded "Zm8" decodes to "fo" |
| `Base64.ForgivingDecodeRefusesBadLength` | src/lib/crypto.ts:68 | "Zm9vY" and "Zg===" are refused: their length is 1 mod 4 |
| `Base64.StandardAlphabetTail` | src/lib/crypto.ts:63-68 | values 62 and 63 are encoded and decoded as '+' and '/', as in the standard alphabet, not as the URL-safe '-' and '_' |
| `Base64.RoundTrip` | src/lib/crypto.ts:63-68 | decoding the Base64 encoding of any byte sequence returns that byte sequence |
| `BinaryString.FromCharCodes` | src/lib/crypto.ts:63 | `String.fromCharCode(...bytes)` has one character per byte, whose code is that byte |
| `BinaryString.ToUint8Array` | src/lib/crypto.ts:68 | `Uint8Array.from(s, c => c.charCodeAt(0))` has one element per character, equal to the code of each character below U+0100 |
| `BinaryString.CharCodesRoundTrip` | src/lib/crypto.ts:63-68 | converting bytes to a binary string and back gives the bytes unchanged |
| `BinaryString.Btoa` | src/lib/crypto.ts:63 | `btoa` throws exactly when some character is above U+00FF; otherwise its output is text that `atob` decodes back to the character codes |
| `BinaryString.Atob` | src/lib/crypto.ts:68 | `atob` succeeds exactly when the Base64 decodes, and returns one character per decoded byte whose code is that byte |
| `BinaryString.AtobBytes` | src/lib/crypto.ts:68 | `Uint8Array.from(atob(s), charCodeAt)` yields exactly the decoded bytes, and fails exactly when `atob` throws |
| `BinaryString.BtoaBytes` | src/lib/crypto.ts:63 | `btoa(String.fromCharCode(...bytes))` never throws |
| `BinaryString.BytesRoundTrip` | src/lib/crypto.ts:63-68 | `charCodeAt ∘ atob ∘ btoa ∘ fromCharCode` is the identity on byte sequences |
| `PasswordCrypto.DeriveKeyFromPassword` | src/lib/crypto.ts:18-40 | the key is non-extractable and 128-bit AES-GCM for encrypt and decrypt, derived by PBKDF2 with SHA-256 and 100,000 iterations from the UTF-8 bytes of the password and the caller's salt; under the assumptions it is 16 bytes |
| `PasswordCrypto.DeriveKeyDeterministic` | src/lib/crypto.ts:18-40 | passwords with the same UTF-8 bytes and equal salts give equal keys |
| `PasswordCrypto.EncryptWithPassword` | src/lib/crypto.ts:44-64 | the blob is exactly the padded Base64 of what it decodes to, which is the salt at [0,16), the IV at [16,28) and the AES-GCM output of the text's UTF-8 bytes at [28,end); under the PBKDF2 and AES-GCM assumptions that is `28 + |utf8(text)| + 16` bytes |
| `PasswordCrypto.DecryptBlob` | src/lib/crypto.ts:67-83 | for a decoder with either `ignoreBOM` setting, a success implies the text was Base64 and, under the AES-GCM assumptions, decoded to at least 28 + 16 bytes |
| `PasswordCrypto.DecryptWithPassword` | src/lib/crypto.ts:67-83 | with the default `TextDecoder`, a success implies the text was Base64 and, under the AES-GCM assumptions, decoded to at least 28 + 16 bytes |
| `PasswordCrypto.EncryptDecryptRoundTrip` | src/lib/crypto.ts:44-83 | decrypting with the same password returns the encrypted text minus a leading U+FEFF, for every salt and IV of the drawn lengths; text not starting with U+FEFF comes back unchanged |
| `PasswordCrypto.BomIsLost` | src/lib/crypto.ts:81-82 | "\u{FEFF}hi" is encrypted and decrypted to "hi", not to itself |
| `PasswordCrypto.DecryptWithPasswordKeepingBom` | src/lib/crypto.ts:67-83 | decryption with `ignoreBOM: true` succeeds exactly when the code's decryption does; a success implies the text was Base64 and, under the AES-GCM assumptions, decoded to at least 28 + 16 bytes |
| `PasswordCrypto.EncryptDecryptRoundTripKeepingBom` | src/lib/crypto.ts:44-83 | with a decoder that keeps the byte order mark, decryption returns exactly the encrypted text, for every text |
| `PasswordCrypto.DistinctRandomnessDistinctBlobs` | src/lib/crypto.ts:46-63 | encryptions that drew different salts or IVs produce different blobs |
| `PasswordCrypto.DecryptRejectsNonBase64` | src/lib/crypto.ts:68 | text `atob` refuses makes decryption fail with InvalidCharacterError |
| `PasswordCrypto.DecryptPropagatesRejection` | src/lib/crypto.ts:73-82 | a rejection by AES-GCM reaches the caller as OperationError, with no text |
| `PasswordCrypto.DecryptRejectsShortBlob` | src/lib/crypto.ts:68-80 | with no length check, a blob decoding to fewer than 44 bytes is still sliced, and the AES-GCM primitive rejects it (needs only the AES-GCM assumptions) |

## Findings

| source | as written | input that shows it | evidently intended | confidence | as-written member | corrected member |
|---|---|---|---|---|---|---|
| src/lib/crypto.ts:81-82 | `new TextDecoder()` keeps the default `ignoreBOM: false`, so a leading U+FEFF, which `TextEncoder` wrote as EF BB BF at line 55, is consumed on decryption | plain text "\u{FEFF}hi" decrypts to "hi" | decryption returns exactly the text that was encrypted | medium, not executed | `PasswordCrypto.BomIsLost` (on `PasswordCrypto.DecryptWithPassword`) | `PasswordCrypto.EncryptDecryptRoundTripKeepingBom` (on `PasswordCrypto.DecryptWithPasswordKeepingBom`) |

## Left out

- `getKey` and `ENCRYPTION_KEY` (src/lib/crypto.ts:4-15): dead code that nothing calls.
- `src/lib/stores/store.svelte.ts`: reactive UI state and date constants, with no operation to verify.
- The internals of PBKDF2, HMAC-SHA-256, AES-GCM and UTF-8: these are platform calls. They are function values constrained only by `WebCrypto.KdfSound`, `WebCrypto.GcmSound` and `WebCrypto.TextSound`.
- `crypto.getRandomValues`: salt and IV are arguments of the right lengths. Their freshness and unpredictability cannot be stated about a deterministic model.
- Promises and `await`: each operation is sequential in effect and is modelled as a pure function.
- Wrong-password and tamper detection: these hold only with overwhelming probability. They follow from AES-GCM's security, not from any equation the model can assume.
- Failure of `crypto.subtle.encrypt` and `deriveKey`: for instance, plaintext beyond AES-GCM's length limit. The model treats both as total.
- The `RangeError` a JavaScript engine may raise when spreading a very large array into `String.fromCharCode`: engine argument limits are not modelled.
- JavaScript strings are UTF-16 code units, but Dafny `char` values are Unicode scalar values. Lone surrogates, which `TextEncoder` replaces by U+FFFD, are therefore not represented, and `TextSound` is stated only for the strings the model can represent.
- BinaryString.ToUint8Array: for a character above U+FFFF, `charCodeAt(0)` yields its high surrogate; the model keeps the code modulo 256 instead and promises nothing for characters from U+0100 on, which `atob` never returns.
- A distinct error for malformed input, or for decrypted bytes that are not UTF-8: the code has neither. `TextDecoder` runs in its default non-fatal mode and never throws.
