/** The platform primitives the envelope code calls but does not implement:
    PBKDF2 (section 5.2 of RFC 8018) behind `crypto.subtle.deriveKey`, AES-GCM
    (NIST SP 800-38D) behind `crypto.subtle.encrypt` and `decrypt`, and
    UTF-8 (the WHATWG Encoding standard) behind `TextEncoder` and
    `TextDecoder`. They are carried as function values, so every call is
    deterministic in its arguments; what the model assumes about each of them
    is stated by `KdfSound`, `GcmSound` and `TextSound`. */
module WebCrypto {
  import opened Results
  import opened TypedArrays

  /** The hash functions Web Crypto accepts as the PBKDF2 pseudorandom
      function's underlying hash. */
  datatype HashAlgorithm = Sha1 | Sha256 | Sha384 | Sha512

  /** AES-GCM's default tag length in Web Crypto: 128 bits. */
  const TagLength: nat := 16

  /** The byte order mark, U+FEFF. */
  const Bom: char := '\U{FEFF}'

  datatype Primitives = Primitives(
    /** PBKDF2 with HMAC over the given hash:
        (password bytes, salt, iterations, hash, output length in bits) to key bytes. */
    pbkdf2: (seq<byte>, seq<byte>, nat, HashAlgorithm, nat) -> seq<byte>,
    /** AES-GCM encryption without additional data: (key, iv, plaintext) to
        ciphertext followed by the tag. */
    gcmEncrypt: (seq<byte>, seq<byte>, seq<byte>) -> seq<byte>,
    /** AES-GCM decryption: (key, iv, ciphertext and tag) to the plaintext, or
        None where the platform rejects with OperationError. */
    gcmDecrypt: (seq<byte>, seq<byte>, seq<byte>) -> Option<seq<byte>>,
    /** `TextEncoder.encode`. */
    utf8Encode: string -> seq<byte>,
    /** `TextDecoder.decode` in its non-fatal mode (it never throws), given the
        decoder's `ignoreBOM` option: when that is false, as it is for
        `new TextDecoder()`, a leading byte order mark is consumed rather
        than returned. */
    utf8Decode: (seq<byte>, bool) -> string
  )

  /** PBKDF2 returns as many bytes as the requested bit length asks for. */
  ghost predicate KdfSound(p: Primitives) {
    forall password, salt, iterations, hash, bits: nat ::
      bits % 8 == 0 ==> |p.pbkdf2(password, salt, iterations, hash, bits)| == bits / 8
  }

  /** The AES key lengths: 128, 192 and 256 bits. */
  predicate IsAesKeyLength(n: nat) {
    n == 16 || n == 24 || n == 32
  }

  /** AES-GCM with a valid AES key and a non-empty iv: decryption under the
      same key and iv inverts encryption, and the output is the plaintext
      followed by a 16-byte tag. Any key or iv: input shorter than the tag is
      rejected by decryption. */
  ghost predicate GcmSound(p: Primitives) {
    && (forall key, iv, plaintext ::
          IsAesKeyLength(|key|) && |iv| > 0 ==>
            p.gcmDecrypt(key, iv, p.gcmEncrypt(key, iv, plaintext)) == Some(plaintext))
    && (forall key, iv, plaintext ::
          IsAesKeyLength(|key|) && |iv| > 0 ==>
            |p.gcmEncrypt(key, iv, plaintext)| == |plaintext| + TagLength)
    && (forall key, iv, ciphertext ::
          |ciphertext| < TagLength ==> p.gcmDecrypt(key, iv, ciphertext) == None)
  }

  /** The text with one leading byte order mark removed, if it has one. */
  function StripBom(text: string): (r: string)
    ensures |text| > 0 && text[0] == Bom ==> text == [Bom] + r
    ensures !(|text| > 0 && text[0] == Bom) ==> r == text
  {
    if |text| > 0 && text[0] == Bom then text[1..] else text
  }

  /** UTF-8 decoding inverts UTF-8 encoding, except that a decoder that does
      not ignore the byte order mark swallows a leading U+FEFF, which the
      encoder writes out like any other character. */
  ghost predicate TextSound(p: Primitives) {
    forall text ::
      && p.utf8Decode(p.utf8Encode(text), true) == text
      && p.utf8Decode(p.utf8Encode(text), false) == StripBom(text)
  }

  // ---------------------------------------------------------------------------
  // A concrete suite satisfying all three predicates, showing the assumptions are
  // consistent. It is no cipher: its "ciphertext" is the plaintext followed
  // by a zero tag, and its text encoding spends three bytes per character.

  function ToyTextEncode(text: string): (bytes: seq<byte>)
    ensures |bytes| == 3 * |text|
  {
    if |text| == 0 then []
    else
      var c := text[0] as int;
      [c / 65536, (c / 256) % 256, c % 256] + ToyTextEncode(text[1..])
  }

  function ToyTextDecode(bytes: seq<byte>): string
    decreases |bytes|
  {
    if |bytes| < 3 then []
    else
      var c := (bytes[0] as int) * 65536 + (bytes[1] as int) * 256 + bytes[2] as int;
      var ch := if 0 <= c < 0xD800 || 0xE000 <= c < 0x11_0000 then c as char else '?';
      [ch] + ToyTextDecode(bytes[3..])
  }

  /** A code point is recovered from its three base-256 digits. */
  lemma ToyCodeDigits(c: int)
    requires 0 <= c
    ensures (c / 65536) * 65536 + ((c / 256) % 256) * 256 + c % 256 == c
  {
    assert c == (c / 256) * 256 + c % 256;
    assert c / 256 == (c / 65536) * 256 + (c / 256) % 256;
  }

  lemma {:induction false} ToyTextRoundTrip(text: string)
    ensures ToyTextDecode(ToyTextEncode(text)) == text
    decreases |text|
  {
    if |text| > 0 {
      var c := text[0] as int;
      var bytes := ToyTextEncode(text);
      assert bytes[..3] == [c / 65536, (c / 256) % 256, c % 256];
      assert bytes[3..] == ToyTextEncode(text[1..]);
      ToyCodeDigits(c);
      ToyTextRoundTrip(text[1..]);
      assert text == [text[0]] + text[1..];
    }
  }

  function ToyGcmDecrypt(ciphertext: seq<byte>): Option<seq<byte>> {
    if |ciphertext| < TagLength then None else Some(ciphertext[..|ciphertext| - TagLength])
  }

  function ToyPrimitives(): Primitives {
    Primitives(
      (password, salt, iterations, hash, bits: nat) => Zeros(bits / 8),
      (key, iv, plaintext) => plaintext + Zeros(TagLength),
      (key, iv, ciphertext) => ToyGcmDecrypt(ciphertext),
      text => ToyTextEncode(text),
      (bytes, ignoreBom) => if ignoreBom then ToyTextDecode(bytes) else StripBom(ToyTextDecode(bytes)))
  }

  lemma ToyPrimitivesSound()
    ensures KdfSound(ToyPrimitives())
    ensures GcmSound(ToyPrimitives())
    ensures TextSound(ToyPrimitives())
  {
    var p := ToyPrimitives();
    forall key, iv, plaintext
      ensures p.gcmDecrypt(key, iv, p.gcmEncrypt(key, iv, plaintext)) == Some(plaintext)
    {
      assert (plaintext + Zeros(TagLength))[..|plaintext|] == plaintext;
    }
    forall text
      ensures p.utf8Decode(p.utf8Encode(text), true) == text
      ensures p.utf8Decode(p.utf8Encode(text), false) == StripBom(text)
    {
      ToyTextRoundTrip(text);
    }
  }
}
