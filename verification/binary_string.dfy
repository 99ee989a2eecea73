/** The byte-per-character strings that connect a `Uint8Array` to `btoa` and
    `atob`: `String.fromCharCode(...bytes)` builds one, `btoa` encodes one,
    `atob` produces one, and `Uint8Array.from(s, c => c.charCodeAt(0))` turns
    one back into bytes. */
module BinaryString {
  import opened Results
  import opened TypedArrays
  import Base64

  /** `String.fromCharCode(...bytes)`: character i has code bytes[i]. */
  function FromCharCodes(bytes: seq<byte>): (s: string)
    ensures |s| == |bytes|
    ensures forall i :: 0 <= i < |s| ==> s[i] as int == bytes[i]
  {
    seq(|bytes|, i requires 0 <= i < |bytes| => bytes[i] as char)
  }

  /** `Uint8Array.from(s, c => c.charCodeAt(0))`. A character below U+0100,
      the only kind `atob` returns, is stored as its code, and that is all
      the contract promises. For other characters the model keeps the code
      modulo 256; it does not model that `charCodeAt(0)` of a character above
      U+FFFF yields its high surrogate. */
  function ToUint8Array(s: string): (bytes: seq<byte>)
    ensures |bytes| == |s|
    ensures forall i :: 0 <= i < |s| && s[i] as int < 256 ==> bytes[i] == s[i] as int
  {
    seq(|s|, i requires 0 <= i < |s| => s[i] as int % 256)
  }

  /** Every character fits in one byte. */
  predicate IsBinary(s: string) {
    forall i :: 0 <= i < |s| ==> s[i] as int < 256
  }

  /** `btoa`: throws InvalidCharacterError on a character above U+00FF,
      otherwise encodes the character codes as Base64. */
  function Btoa(s: string): (r: Result<string, DomException>)
    ensures r.Success? <==> IsBinary(s)
    ensures r.Success? ==> r.value == Base64.Encode(ToUint8Array(s))
    ensures r.Success? ==> Base64.Decode(r.value) == Some(ToUint8Array(s))
  {
    if IsBinary(s) then
      Base64.RoundTrip(ToUint8Array(s));
      Success(Base64.Encode(ToUint8Array(s)))
    else Failure(InvalidCharacterError)
  }

  /** `atob`: throws InvalidCharacterError where forgiving-base64 decode fails,
      otherwise returns one character per decoded byte. */
  function Atob(s: string): (r: Result<string, DomException>)
    ensures r.Success? <==> Base64.Decode(s).Some?
    ensures r.Success? ==> IsBinary(r.value) && |r.value| == |Base64.Decode(s).value|
    ensures r.Success? ==>
      forall i :: 0 <= i < |r.value| ==> r.value[i] as int == Base64.Decode(s).value[i]
  {
    match Base64.Decode(s)
    case None => Failure(InvalidCharacterError)
    case Some(bytes) => Success(FromCharCodes(bytes))
  }

  /** src/lib/crypto.ts line 68: `atob` followed by the conversion to bytes. */
  function AtobBytes(s: string): (r: Result<seq<byte>, DomException>)
    ensures r.Success? <==> Base64.Decode(s).Some?
    ensures r.Success? ==> r.value == Base64.Decode(s).value
  {
    match Atob(s)
    case Failure(e) => Failure(e)
    case Success(binary) =>
      var bytes := ToUint8Array(binary);
      assert bytes == Base64.Decode(s).value;
      Success(bytes)
  }

  /** src/lib/crypto.ts line 63: bytes to a binary string, then `btoa`, which
      cannot throw here because every code is below 256. */
  function BtoaBytes(bytes: seq<byte>): (s: string)
    ensures Btoa(FromCharCodes(bytes)) == Success(s)
  {
    Btoa(FromCharCodes(bytes)).value
  }

  /** The character codes of a binary string survive the trip through
      `Uint8Array` and `String.fromCharCode` unchanged. */
  lemma CharCodesRoundTrip(bytes: seq<byte>)
    ensures ToUint8Array(FromCharCodes(bytes)) == bytes
  {
  }

  /** `charCodeAt ∘ atob ∘ btoa ∘ fromCharCode` is the identity on byte
      sequences. */
  lemma BytesRoundTrip(bytes: seq<byte>)
    ensures AtobBytes(BtoaBytes(bytes)) == Success(bytes)
  {
    CharCodesRoundTrip(bytes);
    Base64.RoundTrip(bytes);
  }
}
