/** The three exported operations of `src/lib/crypto.ts`: deriving an AES-GCM
    key from a password, encrypting a string into a Base64 blob, and
    decrypting such a blob. The randomness of encryption arrives as the
    `salt` and `iv` arguments; the platform primitives arrive as `prims`. */
module PasswordCrypto {
  import opened Results
  import opened TypedArrays
  import opened WebCrypto
  import opened Envelope
  import BinaryString
  import Base64

  /** PBKDF2 iteration count. */
  const Pbkdf2Iterations: nat := 100_000

  /** Hash underlying the HMAC pseudorandom function of PBKDF2. */
  const Pbkdf2Hash: HashAlgorithm := Sha256

  /** Length of the derived AES-GCM key in bits. */
  const AesKeyLengthBits: nat := 128

  datatype KeyUsage = Encrypt | Decrypt

  /** A non-extractable AES-GCM `CryptoKey`; `material` is the secret the
      platform keeps hidden. */
  datatype AesGcmKey = AesGcmKey(lengthBits: nat, extractable: bool, usages: set<KeyUsage>, material: seq<byte>)

  /** `deriveKeyFromPassword`: import the UTF-8 bytes of the password as PBKDF2
      key material, copy the salt, and derive a 128-bit AES-GCM key with
      HMAC-SHA-256 and 100,000 iterations. The copy hands PBKDF2 the caller's
      salt unchanged. */
  function DeriveKeyFromPassword(prims: Primitives, password: string, salt: seq<byte>): (key: AesGcmKey)
    ensures key.lengthBits == 128 && !key.extractable && key.usages == {Encrypt, Decrypt}
    ensures key.material == prims.pbkdf2(prims.utf8Encode(password), salt, 100_000, Sha256, 128)
    ensures KdfSound(prims) ==> |key.material| == 16
  {
    var keyMaterial := prims.utf8Encode(password);
    var realSalt := SliceFrom(salt, 0);
    SliceFromZeroCopies(salt);
    AesGcmKey(AesKeyLengthBits, false, {Encrypt, Decrypt},
              prims.pbkdf2(keyMaterial, realSalt, Pbkdf2Iterations, Pbkdf2Hash, AesKeyLengthBits))
  }

  /** The key is a function of the password's UTF-8 bytes and the salt alone:
      passwords with the same encoding and equal salts give equal keys, which
      is what lets decryption re-derive the key encryption used. */
  lemma DeriveKeyDeterministic(prims: Primitives, password1: string, password2: string, salt1: seq<byte>, salt2: seq<byte>)
    requires prims.utf8Encode(password1) == prims.utf8Encode(password2)
    requires salt1 == salt2
    ensures DeriveKeyFromPassword(prims, password1, salt1) == DeriveKeyFromPassword(prims, password2, salt2)
  {
  }

  /** `encryptWithPassword` with its random salt and iv given: derive the key,
      AES-GCM-encrypt the UTF-8 bytes of the text, lay out
      salt || iv || encrypted and return it as Base64. The blob is the padded
      Base64 of its own decoding, and that decoding holds the salt in
      [0, 16), the iv in [16, 28) and the AES-GCM output in [28, end). */
  function EncryptWithPassword(prims: Primitives, plainText: string, password: string,
                               salt: seq<byte>, iv: seq<byte>): (blob: string)
    requires |salt| == SaltLength && |iv| == IvLength
    ensures BinaryString.AtobBytes(blob).Success?
    ensures blob == Base64.Encode(BinaryString.AtobBytes(blob).value)
    ensures var data := BinaryString.AtobBytes(blob).value;
      && |data| >= HeaderLength
      && data[..SaltLength] == salt
      && data[SaltLength..HeaderLength] == iv
      && data[HeaderLength..] == prims.gcmEncrypt(DeriveKeyFromPassword(prims, password, salt).material,
                                                  iv, prims.utf8Encode(plainText))
    ensures KdfSound(prims) && GcmSound(prims) ==>
      |BinaryString.AtobBytes(blob).value| == HeaderLength + |prims.utf8Encode(plainText)| + TagLength
  {
    var key := DeriveKeyFromPassword(prims, password, salt);
    var encrypted := prims.gcmEncrypt(key.material, iv, prims.utf8Encode(plainText));
    var combined := Combine(salt, iv, encrypted);
    BinaryString.CharCodesRoundTrip(combined);
    BinaryString.BytesRoundTrip(combined);
    BinaryString.BtoaBytes(combined)
  }

  /** The steps of `decryptWithPassword`, for a `TextDecoder` whose
      `ignoreBOM` option is `ignoreBom`: Base64-decode, cut at offsets 16 and
      28 without any length check, re-derive the key from the salt found
      there, AES-GCM-decrypt and UTF-8-decode. A rejection by `atob` or by the
      decryption primitive reaches the caller as is; only a successful
      decryption yields text. A success implies the decoded blob held the
      28-byte header and at least a full tag. */
  function DecryptBlob(prims: Primitives, encryptedB64: string, password: string, ignoreBom: bool)
    : (r: Result<string, DomException>)
    ensures r.Success? ==> BinaryString.AtobBytes(encryptedB64).Success?
    ensures GcmSound(prims) && r.Success? ==>
      |BinaryString.AtobBytes(encryptedB64).value| >= HeaderLength + TagLength
  {
    match BinaryString.AtobBytes(encryptedB64)
    case Failure(e) => Failure(e)
    case Success(data) =>
      var parts := Split(data);
      var key := DeriveKeyFromPassword(prims, password, parts.salt);
      match prims.gcmDecrypt(key.material, parts.iv, parts.ciphertext)
      case None => Failure(OperationError)
      case Some(decrypted) => Success(prims.utf8Decode(decrypted, ignoreBom))
  }

  /** `decryptWithPassword` as written: `new TextDecoder()` leaves `ignoreBOM`
      false. A success implies the text was Base64 that decoded to at least
      the header and a tag. */
  function DecryptWithPassword(prims: Primitives, encryptedB64: string, password: string)
    : (r: Result<string, DomException>)
    ensures r.Success? ==> BinaryString.AtobBytes(encryptedB64).Success?
    ensures GcmSound(prims) && r.Success? ==>
      |BinaryString.AtobBytes(encryptedB64).value| >= HeaderLength + TagLength
  {
    DecryptBlob(prims, encryptedB64, password, false)
  }

  /** `decryptWithPassword` decoding with `new TextDecoder('utf-8', { ignoreBOM: true })`,
      which returns a leading U+FEFF instead of consuming it. */
  function DecryptWithPasswordKeepingBom(prims: Primitives, encryptedB64: string, password: string)
    : (r: Result<string, DomException>)
    ensures r.Success? <==> DecryptWithPassword(prims, encryptedB64, password).Success?
    ensures r.Success? ==> BinaryString.AtobBytes(encryptedB64).Success?
    ensures GcmSound(prims) && r.Success? ==>
      |BinaryString.AtobBytes(encryptedB64).value| >= HeaderLength + TagLength
  {
    DecryptBlob(prims, encryptedB64, password, true)
  }

  // ---------------------------------------------------------------------------
  // Properties

  /** Decrypting with the password used for encryption returns the text,
      whatever salt and iv were drawn, except that a leading U+FEFF is lost:
      `TextEncoder` writes it out and the default `TextDecoder` consumes it. */
  lemma EncryptDecryptRoundTrip(prims: Primitives, plainText: string, password: string,
                                salt: seq<byte>, iv: seq<byte>)
    requires KdfSound(prims) && GcmSound(prims) && TextSound(prims)
    requires |salt| == SaltLength && |iv| == IvLength
    ensures DecryptWithPassword(prims, EncryptWithPassword(prims, plainText, password, salt, iv), password)
            == Success(StripBom(plainText))
    ensures (|plainText| == 0 || plainText[0] != Bom) ==>
      DecryptWithPassword(prims, EncryptWithPassword(prims, plainText, password, salt, iv), password)
      == Success(plainText)
  {
  }

  /** The discrepancy on a concrete input: "\U{FEFF}hi" comes back as "hi". */
  lemma BomIsLost(prims: Primitives, password: string, salt: seq<byte>, iv: seq<byte>)
    requires KdfSound(prims) && GcmSound(prims) && TextSound(prims)
    requires |salt| == SaltLength && |iv| == IvLength
    ensures DecryptWithPassword(prims, EncryptWithPassword(prims, "\U{FEFF}hi", password, salt, iv), password)
            == Success("hi")
    ensures DecryptWithPassword(prims, EncryptWithPassword(prims, "\U{FEFF}hi", password, salt, iv), password)
            != Success("\U{FEFF}hi")
  {
    EncryptDecryptRoundTrip(prims, "\U{FEFF}hi", password, salt, iv);
    assert StripBom("\U{FEFF}hi") == "hi";
  }

  /** With a decoder that keeps the byte order mark, decryption returns
      exactly the encrypted text, for every text. */
  lemma EncryptDecryptRoundTripKeepingBom(prims: Primitives, plainText: string, password: string,
                                          salt: seq<byte>, iv: seq<byte>)
    requires KdfSound(prims) && GcmSound(prims) && TextSound(prims)
    requires |salt| == SaltLength && |iv| == IvLength
    ensures DecryptWithPasswordKeepingBom(prims, EncryptWithPassword(prims, plainText, password, salt, iv), password)
            == Success(plainText)
  {
  }

  /** Two encryptions that drew different salts or different ivs produce
      different blobs. */
  lemma DistinctRandomnessDistinctBlobs(prims: Primitives, plainText: string, password: string,
                                        salt1: seq<byte>, iv1: seq<byte>, salt2: seq<byte>, iv2: seq<byte>)
    requires |salt1| == SaltLength && |iv1| == IvLength
    requires |salt2| == SaltLength && |iv2| == IvLength
    requires salt1 != salt2 || iv1 != iv2
    ensures EncryptWithPassword(prims, plainText, password, salt1, iv1)
            != EncryptWithPassword(prims, plainText, password, salt2, iv2)
  {
  }

  /** Text that `atob` refuses (for instance text holding a character that
      is neither Base64 alphabet, ASCII whitespace nor padding, see
      `Base64.DecodeRejectsForeignChar`) makes decryption fail with
      InvalidCharacterError before any key is derived. */
  lemma DecryptRejectsNonBase64(prims: Primitives, encryptedB64: string, password: string)
    requires Base64.Decode(encryptedB64).None?
    ensures DecryptWithPassword(prims, encryptedB64, password) == Failure(InvalidCharacterError)
  {
  }

  /** A rejection by the AES-GCM primitive reaches the caller as
      OperationError; nothing catches it and no text is produced. */
  lemma DecryptPropagatesRejection(prims: Primitives, encryptedB64: string, password: string)
    requires Base64.Decode(encryptedB64).Some?
    requires var parts := Split(Base64.Decode(encryptedB64).value);
      var key := DeriveKeyFromPassword(prims, password, parts.salt);
      prims.gcmDecrypt(key.material, parts.iv, parts.ciphertext).None?
    ensures DecryptWithPassword(prims, encryptedB64, password) == Failure(OperationError)
  {
  }

  /** There is no explicit length check: Base64 that decodes to fewer than
      28 + 16 bytes still gets sliced, and it is the decryption primitive that
      rejects what remains as too short to hold a tag. */
  lemma DecryptRejectsShortBlob(prims: Primitives, encryptedB64: string, password: string)
    requires GcmSound(prims)
    requires Base64.Decode(encryptedB64).Some?
    requires |Base64.Decode(encryptedB64).value| < HeaderLength + TagLength
    ensures DecryptWithPassword(prims, encryptedB64, password) == Failure(OperationError)
  {
    var parts := Split(Base64.Decode(encryptedB64).value);
    assert |parts.ciphertext| < TagLength;
  }
}
