/** The byte layout of an encrypted blob before Base64:
    salt (16 bytes) || iv (12 bytes) || AES-GCM output (ciphertext || tag).
    No length field is stored; the reader cuts at the fixed offsets 16 and 28. */
module Envelope {
  import opened TypedArrays

  /** Length of the PBKDF2 salt drawn for each encryption. */
  const SaltLength: nat := 16

  /** Length of the AES-GCM initialisation vector drawn for each encryption. */
  const IvLength: nat := 12

  /** Offset at which the AES-GCM output starts. */
  const HeaderLength: nat := SaltLength + IvLength

  /** The three fields of a blob. */
  datatype Parts = Parts(salt: seq<byte>, iv: seq<byte>, ciphertext: seq<byte>)

  /** src/lib/crypto.ts lines 59-62: allocate a zeroed buffer of the total length, then `set`
      the salt at 0, the iv after it and the encrypted bytes after both. */
  function Combine(salt: seq<byte>, iv: seq<byte>, encrypted: seq<byte>): (combined: seq<byte>)
    ensures |combined| == |salt| + |iv| + |encrypted|
    ensures combined[..|salt|] == salt
    ensures combined[|salt|..|salt| + |iv|] == iv
    ensures combined[|salt| + |iv|..] == encrypted
  {
    var buffer := Zeros(|salt| + |iv| + |encrypted|);
    var withSalt := SetAt(buffer, salt, 0);
    var withIv := SetAt(withSalt, iv, |salt|);
    SetAt(withIv, encrypted, |salt| + |iv|)
  }

  /** The three `set` calls write the concatenation of the fields. */
  lemma CombineIsConcatenation(salt: seq<byte>, iv: seq<byte>, encrypted: seq<byte>)
    ensures Combine(salt, iv, encrypted) == salt + iv + encrypted
  {
    var c := Combine(salt, iv, encrypted);
    assert c == c[..|salt|] + c[|salt|..|salt| + |iv|] + c[|salt| + |iv|..];
  }

  /** src/lib/crypto.ts lines 69-71: `data.slice(0, 16)`, `data.slice(16, 28)` and
      `data.slice(28)`. Nothing checks the length first; each slice is clamped
      to what is there, and together they always cover the data. */
  function Split(data: seq<byte>): (parts: Parts)
    ensures |parts.salt| == Min(SaltLength, |data|)
    ensures |parts.iv| == Min(IvLength, Max(0, |data| - SaltLength))
    ensures |parts.ciphertext| == Max(0, |data| - HeaderLength)
    ensures parts.salt + parts.iv + parts.ciphertext == data
  {
    var salt := Slice(data, 0, 16);
    var iv := Slice(data, 16, 28);
    var ciphertext := SliceFrom(data, 28);
    assert salt + iv + ciphertext == data by {
      if |data| < 16 {
        assert salt == data;
      } else if |data| < 28 {
        assert salt == data[..16] && iv == data[16..];
      } else {
        assert salt == data[..16] && iv == data[16..28] && ciphertext == data[28..];
        assert data == data[..16] + data[16..28] + data[28..];
      }
    }
    Parts(salt, iv, ciphertext)
  }

  /** Cutting at the fixed offsets returns exactly the fields that were
      combined if and only if the salt and iv sit where the offsets expect
      them: the salt fills [0, 16) and the iv [16, 28), as far as the data
      reaches. */
  lemma SplitCombineIff(salt: seq<byte>, iv: seq<byte>, encrypted: seq<byte>)
    ensures var n := |salt| + |iv| + |encrypted|;
      Split(Combine(salt, iv, encrypted)) == Parts(salt, iv, encrypted)
      <==> |salt| == Min(SaltLength, n) && |iv| == Min(IvLength, Max(0, n - SaltLength))
  {
    var c := Combine(salt, iv, encrypted);
    var p := Split(c);
    CombineIsConcatenation(salt, iv, encrypted);
    if |salt| == |p.salt| && |iv| == |p.iv| {
      assert p.salt + p.iv + p.ciphertext == salt + iv + encrypted;
      assert p.salt == (p.salt + p.iv + p.ciphertext)[..|salt|];
      assert salt == (salt + iv + encrypted)[..|salt|];
      assert p.iv == (p.salt + p.iv + p.ciphertext)[|salt|..|salt| + |iv|];
      assert iv == (salt + iv + encrypted)[|salt|..|salt| + |iv|];
      assert p.ciphertext == (p.salt + p.iv + p.ciphertext)[|salt| + |iv|..];
      assert encrypted == (salt + iv + encrypted)[|salt| + |iv|..];
    }
  }

  /** With a 16-byte salt and a 12-byte iv, splitting undoes combining. */
  lemma SplitCombine(salt: seq<byte>, iv: seq<byte>, encrypted: seq<byte>)
    requires |salt| == SaltLength && |iv| == IvLength
    ensures Split(Combine(salt, iv, encrypted)) == Parts(salt, iv, encrypted)
  {
    SplitCombineIff(salt, iv, encrypted);
  }

  /** Combining the pieces of any split gives the data back, short data
      included. */
  lemma CombineSplit(data: seq<byte>)
    ensures var p := Split(data); Combine(p.salt, p.iv, p.ciphertext) == data
  {
    var p := Split(data);
    CombineIsConcatenation(p.salt, p.iv, p.ciphertext);
  }
}
