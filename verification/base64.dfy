/** Base64 as `btoa` and `atob` apply it to a byte-per-character string.
    `Encode` is the padded encoding of section 4 of RFC 4648. `Decode` is the
    WHATWG "forgiving-base64 decode" that `atob` runs: ASCII whitespace is
    dropped, trailing padding is optional, and the bits left over after the
    last full byte are discarded. */
module Base64 {
  import opened Results
  import opened TypedArrays

  /** The 64 characters of the standard alphabet (Table 1 of RFC 4648). */
  predicate IsAlphabetChar(c: char) {
    ('A' <= c <= 'Z') || ('a' <= c <= 'z') || ('0' <= c <= '9') || c == '+' || c == '/'
  }

  /** Table 1 of RFC 4648, value 0 first. It is written in eight-character
      pieces so that the verifier indexes it cheaply. */
  const Alphabet: string :=
    "ABCDEFGH" + "IJKLMNOP" + "QRSTUVWX" + "YZabcdef" +
    "ghijklmn" + "opqrstuv" + "wxyz0123" + "456789+/"

  const Pad: char := '='

  /** The 6-bit value an alphabet character stands for. */
  function ValueOf(c: char): (v: int)
    requires IsAlphabetChar(c)
    ensures 0 <= v < 64
  {
    if 'A' <= c <= 'Z' then c as int - 'A' as int
    else if 'a' <= c <= 'z' then c as int - 'a' as int + 26
    else if '0' <= c <= '9' then c as int - '0' as int + 52
    else if c == '+' then 62
    else 63
  }

  /** The alphabet character for a 6-bit value; `ValueOf` undoes it. */
  function CharOf(v: int): (c: char)
    requires 0 <= v < 64
    ensures IsAlphabetChar(c)
    ensures ValueOf(c) == v
  {
    if v < 26 then ('A' as int + v) as char
    else if v < 52 then ('a' as int + v - 26) as char
    else if v < 62 then ('0' as int + v - 52) as char
    else if v == 62 then '+'
    else '/'
  }

  /** The other half of the bijection between alphabet and 6-bit values. */
  lemma CharOfValueOf(c: char)
    requires IsAlphabetChar(c)
    ensures CharOf(ValueOf(c)) == c
  {
  }

  /** `CharOf` and `ValueOf` follow Table 1 exactly: value v is written as
      entry v, and each alphabet character stands for its position. */
  lemma AlphabetIsTable1(v: int, c: char)
    requires 0 <= v < 64 && IsAlphabetChar(c)
    ensures |Alphabet| == 64
    ensures CharOf(v) == Alphabet[v]
    ensures Alphabet[ValueOf(c)] == c
  {
    CharOfIsEntry(v);
    CharOfIsEntry(ValueOf(c));
    CharOfValueOf(c);
  }

  lemma CharOfIsEntry(v: int)
    requires 0 <= v < 64
    ensures |Alphabet| == 64 && CharOf(v) == Alphabet[v]
  {
    if v < 26 {
      UpperEntries(v);
    } else if v < 52 {
      LowerEntries(v);
    } else {
      DigitAndSymbolEntries(v);
    }
  }

  /** Table 1 in three ranges: upper-case letters, lower-case letters, then
      digits, '+' and '/'. */
  lemma UpperEntries(v: int)
    requires 0 <= v < 26
    ensures CharOf(v) == Alphabet[v]
  {
  }

  lemma LowerEntries(v: int)
    requires 26 <= v < 52
    ensures CharOf(v) == Alphabet[v]
  {
  }

  lemma DigitAndSymbolEntries(v: int)
    requires 52 <= v < 64
    ensures CharOf(v) == Alphabet[v]
  {
  }


  /** Number of characters the unpadded encoding of n bytes takes. */
  function UnpaddedLength(n: nat): nat {
    (n / 3) * 4 + (if n % 3 == 0 then 0 else n % 3 + 1)
  }

  /** One quantum: one, two or three bytes become two, three or four
      characters, the last character's low bits being zero-filled. */
  function EncodeGroup(g: seq<byte>): (s: string)
    requires 1 <= |g| <= 3
    ensures |s| == |g| + 1
    ensures forall i :: 0 <= i < |s| ==> IsAlphabetChar(s[i])
  {
    if |g| == 1 then
      [CharOf(g[0] / 4), CharOf((g[0] % 4) * 16)]
    else if |g| == 2 then
      [CharOf(g[0] / 4), CharOf((g[0] % 4) * 16 + g[1] / 16), CharOf((g[1] % 16) * 4)]
    else
      [CharOf(g[0] / 4), CharOf((g[0] % 4) * 16 + g[1] / 16),
       CharOf((g[1] % 16) * 4 + g[2] / 64), CharOf(g[2] % 64)]
  }

  /** The encoding without padding: the bytes are taken three at a time, the
      last group holding whatever is left. */
  function EncodeUnpadded(b: seq<byte>): (s: string)
    ensures |s| == UnpaddedLength(|b|)
    ensures forall i :: 0 <= i < |s| ==> IsAlphabetChar(s[i])
    decreases |b|
  {
    if |b| == 0 then []
    else
      var k := Min(3, |b|);
      EncodeGroup(b[..k]) + EncodeUnpadded(b[k..])
  }

  /** The padding that completes the last quantum to four characters. */
  function Padding(n: nat): string {
    if n % 3 == 1 then [Pad, Pad] else if n % 3 == 2 then [Pad] else []
  }

  /** `btoa` on the bytes: padded Base64. The output length is a multiple of
      four, and only alphabet characters and trailing padding occur. */
  function Encode(b: seq<byte>): (s: string)
    ensures |s| == 4 * ((|b| + 2) / 3)
    ensures forall i :: 0 <= i < |s| ==> IsAlphabetChar(s[i]) || s[i] == Pad
  {
    EncodeUnpadded(b) + Padding(|b|)
  }

  /** ASCII whitespace as the WHATWG Infra standard defines it. */
  predicate IsAsciiWhitespace(c: char) {
    c == ' ' || c == '\t' || c == '\n' || c == '\r' || c as int == 0x0C
  }

  /** Step 1 of forgiving-base64 decode: remove all ASCII whitespace. */
  function StripWhitespace(s: string): (r: string)
    ensures |r| <= |s|
    ensures forall i :: 0 <= i < |r| ==> !IsAsciiWhitespace(r[i])
  {
    if |s| == 0 then []
    else if IsAsciiWhitespace(s[0]) then StripWhitespace(s[1..])
    else [s[0]] + StripWhitespace(s[1..])
  }

  /** Step 2: when the length is a multiple of four, drop one or two trailing
      padding characters. */
  function StripPadding(s: string): string {
    if |s| % 4 == 0 && |s| >= 2 && s[|s| - 1] == Pad && s[|s| - 2] == Pad then s[..|s| - 2]
    else if |s| % 4 == 0 && |s| >= 1 && s[|s| - 1] == Pad then s[..|s| - 1]
    else s
  }

  /** What is left after steps 1 and 2 can be decoded when its length is not
      one more than a multiple of four and all of it is alphabet. */
  predicate Decodable(d: string) {
    |d| % 4 != 1 && forall i :: 0 <= i < |d| ==> IsAlphabetChar(d[i])
  }

  /** Number of bytes `DecodeUnpadded` yields for m characters. */
  function DecodedLength(m: nat): nat {
    (m / 4) * 3 + (if m % 4 == 0 then 0 else m % 4 - 1)
  }

  /** Two, three or four characters give one, two or three bytes; the bits
      beyond the last whole byte are discarded. */
  function DecodeGroup(d: string): (g: seq<byte>)
    requires 2 <= |d| <= 4
    requires forall i :: 0 <= i < |d| ==> IsAlphabetChar(d[i])
    ensures |g| == |d| - 1
  {
    var b0 := ValueOf(d[0]) * 4 + ValueOf(d[1]) / 16;
    if |d| == 2 then [b0]
    else
      var b1 := (ValueOf(d[1]) % 16) * 16 + ValueOf(d[2]) / 4;
      if |d| == 3 then [b0, b1]
      else [b0, b1, (ValueOf(d[2]) % 4) * 64 + ValueOf(d[3])]
  }

  /** The remaining steps of forgiving-base64 decode: the characters are
      taken four at a time, the last group holding whatever is left. */
  function DecodeUnpadded(d: string): (b: seq<byte>)
    requires Decodable(d)
    ensures |b| == DecodedLength(|d|)
    decreases |d|
  {
    if |d| == 0 then []
    else
      var k := Min(4, |d|);
      DecodeGroup(d[..k]) + DecodeUnpadded(d[k..])
  }

  /** `atob` on the text: the decoded bytes, or None where `atob` throws. */
  function Decode(s: string): (r: Option<seq<byte>>)
    ensures r.Some? <==> Decodable(StripPadding(StripWhitespace(s)))
    ensures r.Some? ==>
      forall i :: 0 <= i < |s| ==> IsAlphabetChar(s[i]) || IsAsciiWhitespace(s[i]) || s[i] == Pad
  {
    var d := StripPadding(StripWhitespace(s));
    if Decodable(d) then
      DecodableCharset(s);
      Some(DecodeUnpadded(d))
    else None
  }

  // ---------------------------------------------------------------------------
  // Round trip

  /** Text without whitespace passes step 1 unchanged. */
  lemma {:induction false} StripWhitespaceNoop(s: string)
    requires forall i :: 0 <= i < |s| ==> !IsAsciiWhitespace(s[i])
    ensures StripWhitespace(s) == s
    decreases |s|
  {
    if |s| > 0 {
      StripWhitespaceNoop(s[1..]);
    }
  }

  /** Step 2 removes exactly the padding appended to an unpadded encoding. */
  lemma StripPaddingOfPadded(u: string, n: nat)
    requires |u| == UnpaddedLength(n)
    requires forall i :: 0 <= i < |u| ==> IsAlphabetChar(u[i])
    ensures StripPadding(u + Padding(n)) == u
  {
    var s := u + Padding(n);
    var q := n / 3;
    if n % 3 == 0 {
      assert s == u;
      assert |s| > 0 ==> IsAlphabetChar(s[|s| - 1]);
    } else if n % 3 == 1 {
      assert |s| == 4 * (q + 1);
      assert s[..|s| - 2] == u;
    } else {
      assert |s| == 4 * (q + 1);
      assert IsAlphabetChar(s[|s| - 2]);
      assert s[..|s| - 1] == u;
    }
  }

  /** The bit arithmetic of `GroupRoundTrip`, one output byte at a time. */
  lemma FirstByteBits(a: int, b: int)
    requires 0 <= a < 256 && 0 <= b < 256
    ensures (a / 4) * 4 + ((a % 4) * 16 + b / 16) / 16 == a
  {
    assert ((a % 4) * 16 + b / 16) / 16 == a % 4;
  }

  lemma SecondByteBits(a: int, b: int, c: int)
    requires 0 <= a < 256 && 0 <= b < 256 && 0 <= c < 256
    ensures (((a % 4) * 16 + b / 16) % 16) * 16 + ((b % 16) * 4 + c / 64) / 4 == b
  {
    assert ((a % 4) * 16 + b / 16) % 16 == b / 16;
    assert ((b % 16) * 4 + c / 64) / 4 == b % 16;
  }

  lemma ThirdByteBits(b: int, c: int)
    requires 0 <= b < 256 && 0 <= c < 256
    ensures (((b % 16) * 4 + c / 64) % 4) * 64 + c % 64 == c
  {
    assert ((b % 16) * 4 + c / 64) % 4 == c / 64;
  }

  /** Decoding a quantum gives back the bytes it was encoded from. */
  lemma GroupRoundTrip(g: seq<byte>)
    requires 1 <= |g| <= 3
    ensures DecodeGroup(EncodeGroup(g)) == g
  {
    if |g| == 1 {
      GroupRoundTrip1(g[0]);
      assert g == [g[0]];
    } else if |g| == 2 {
      GroupRoundTrip2(g[0], g[1]);
      assert g == [g[0], g[1]];
    } else {
      GroupRoundTrip3(g[0], g[1], g[2]);
      assert g == [g[0], g[1], g[2]];
    }
  }

  lemma GroupRoundTrip1(a: byte)
    ensures DecodeGroup(EncodeGroup([a])) == [a]
  {
    var s := EncodeGroup([a]);
    assert ValueOf(s[0]) == a / 4;
    assert ValueOf(s[1]) == (a % 4) * 16 + 0 / 16;
    FirstByteBits(a, 0);
  }

  lemma GroupRoundTrip2(a: byte, b: byte)
    ensures DecodeGroup(EncodeGroup([a, b])) == [a, b]
  {
    var s := EncodeGroup([a, b]);
    assert ValueOf(s[0]) == a / 4;
    assert ValueOf(s[1]) == (a % 4) * 16 + b / 16;
    assert ValueOf(s[2]) == (b % 16) * 4 + 0 / 64;
    FirstByteBits(a, b);
    SecondByteBits(a, b, 0);
  }

  lemma GroupRoundTrip3(a: byte, b: byte, c: byte)
    ensures DecodeGroup(EncodeGroup([a, b, c])) == [a, b, c]
  {
    var s := EncodeGroup([a, b, c]);
    assert ValueOf(s[0]) == a / 4;
    assert ValueOf(s[1]) == (a % 4) * 16 + b / 16;
    assert ValueOf(s[2]) == (b % 16) * 4 + c / 64;
    assert ValueOf(s[3]) == c % 64;
    FirstByteBits(a, b);
    SecondByteBits(a, b, c);
    ThirdByteBits(b, c);
  }

  /** Decoding a leading full quantum and decoding the rest. */
  lemma DecodeUnpaddedStep(group: string, rest: string)
    requires |group| == 4 && Decodable(group) && Decodable(rest)
    ensures Decodable(group + rest)
    ensures DecodeUnpadded(group + rest) == DecodeGroup(group) + DecodeUnpadded(rest)
  {
    var d := group + rest;
    assert d[..4] == group && d[4..] == rest;
  }

  /** A lone final quantum decodes as a group. */
  lemma DecodeUnpaddedLast(group: string)
    requires 2 <= |group| <= 4 && Decodable(group)
    ensures DecodeUnpadded(group) == DecodeGroup(group)
  {
    assert group[..|group|] == group && group[|group|..] == [];
  }

  lemma {:induction false} DecodeUnpaddedEncodeUnpadded(b: seq<byte>)
    ensures Decodable(EncodeUnpadded(b))
    ensures DecodeUnpadded(EncodeUnpadded(b)) == b
    decreases |b|
  {
    if 1 <= |b| <= 3 {
      EncodeUnpaddedShort(b);
      GroupRoundTrip(b);
      DecodeUnpaddedLast(EncodeGroup(b));
    } else if |b| > 3 {
      var g, rest := b[..3], b[3..];
      assert b == g + rest;
      EncodeUnpaddedGroupThen(g, rest);
      GroupRoundTrip(g);
      DecodeUnpaddedEncodeUnpadded(rest);
      DecodeUnpaddedStep(EncodeGroup(g), EncodeUnpadded(rest));
    }
  }

  // ---------------------------------------------------------------------------
  // Rejection

  /** Step 1 keeps every character that is not whitespace. */
  lemma {:induction false} StripWhitespaceKeeps(s: string, i: nat)
    requires i < |s| && !IsAsciiWhitespace(s[i])
    ensures s[i] in StripWhitespace(s)
    decreases |s|
  {
    if i > 0 {
      StripWhitespaceKeeps(s[1..], i - 1);
      assert s[1..][i - 1] == s[i];
    }
  }

  /** Step 2 removes nothing but padding characters. */
  lemma StripPaddingKeeps(s: string, c: char)
    requires c in s && c != Pad
    ensures c in StripPadding(s)
  {
    var i :| 0 <= i < |s| && s[i] == c;
    var d := StripPadding(s);
    assert i < |d| && d[i] == c;
  }

  /** Text that survives steps 1 to 4 holds nothing but alphabet
      characters, ASCII whitespace and padding. */
  lemma DecodableCharset(s: string)
    requires Decodable(StripPadding(StripWhitespace(s)))
    ensures forall i :: 0 <= i < |s| ==> IsAlphabetChar(s[i]) || IsAsciiWhitespace(s[i]) || s[i] == Pad
  {
    forall i | 0 <= i < |s| && !IsAsciiWhitespace(s[i]) && s[i] != Pad
      ensures IsAlphabetChar(s[i])
    {
      StripWhitespaceKeeps(s, i);
      StripPaddingKeeps(StripWhitespace(s), s[i]);
    }
  }

  /** `atob` throws on any character that is neither in the alphabet, nor
      ASCII whitespace, nor the padding character. */
  lemma DecodeRejectsForeignChar(s: string, i: nat)
    requires i < |s|
    requires !IsAlphabetChar(s[i]) && !IsAsciiWhitespace(s[i]) && s[i] != Pad
    ensures Decode(s) == None
  {
  }

  /** `atob(btoa(x))` gives x back: decoding inverts encoding on every byte
      sequence. */
  lemma RoundTrip(b: seq<byte>)
    ensures Decode(Encode(b)) == Some(b)
  {
    StripWhitespaceNoop(Encode(b));
    StripPaddingOfPadded(EncodeUnpadded(b), |b|);
    DecodeUnpaddedEncodeUnpadded(b);
  }

  /** Padding is optional for `atob`: the unpadded encoding decodes to the
      same bytes as the padded one. */
  lemma DecodeAcceptsUnpadded(b: seq<byte>)
    ensures Decode(EncodeUnpadded(b)) == Some(b)
  {
    var u := EncodeUnpadded(b);
    StripWhitespaceNoop(u);
    assert |u| > 0 ==> IsAlphabetChar(u[|u| - 1]);
    assert StripPadding(u) == u;
    DecodeUnpaddedEncodeUnpadded(b);
  }

  /** An unpadded encoding of at most three bytes is a single group. */
  lemma EncodeUnpaddedShort(b: seq<byte>)
    requires 1 <= |b| <= 3
    ensures EncodeUnpadded(b) == EncodeGroup(b)
  {
    assert b[..|b|] == b;
  }

  /** The single groups of the RFC 4648 vectors: "f", "fo" and "foo", padded
      to "Zg==", "Zm8=" and "Zm9v", and the final groups "b", "ba" and "bar"
      of "foob", "fooba" and "foobar". */
  lemma Rfc4648GroupVectors()
    ensures EncodeGroup([102]) == "Zg"
    ensures EncodeGroup([102, 111]) == "Zm8"
    ensures EncodeGroup([102, 111, 111]) == "Zm9v"
    ensures EncodeGroup([98]) == "Yg"
    ensures EncodeGroup([98, 97]) == "YmE"
    ensures EncodeGroup([98, 97, 114]) == "YmFy"
  {
    assert CharOf(25) == 'Z' && CharOf(32) == 'g' && CharOf(38) == 'm';
    assert CharOf(60) == '8' && CharOf(61) == '9' && CharOf(47) == 'v';
    assert CharOf(24) == 'Y' && CharOf(4) == 'E' && CharOf(5) == 'F' && CharOf(50) == 'y';
  }

  /** A full leading group is encoded on its own. */
  lemma EncodeUnpaddedGroupThen(g: seq<byte>, rest: seq<byte>)
    requires |g| == 3 && |rest| > 0
    ensures EncodeUnpadded(g + rest) == EncodeGroup(g) + EncodeUnpadded(rest)
  {
    assert (g + rest)[..3] == g && (g + rest)[3..] == rest;
  }

  /** The test vectors of section 10 of RFC 4648 up to one group: "", "f",
      "fo" and "foo" and their padded encodings. */
  lemma Rfc4648EncodeVectorsShort()
    ensures Encode([]) == ""
    ensures Encode([102]) == "Zg=="
    ensures Encode([102, 111]) == "Zm8="
    ensures Encode([102, 111, 111]) == "Zm9v"
  {
    Rfc4648GroupVectors();
    EncodeUnpaddedShort([102]);
    EncodeUnpaddedShort([102, 111]);
    EncodeUnpaddedShort([102, 111, 111]);
  }

  /** "foo" followed by a final quantum of one, two or three bytes. */
  lemma FooThen(last: seq<byte>)
    requires 1 <= |last| <= 3
    ensures EncodeUnpadded([102, 111, 111] + last) == "Zm9v" + EncodeGroup(last)
  {
    Rfc4648GroupVectors();
    EncodeUnpaddedShort(last);
    EncodeUnpaddedGroupThen([102, 111, 111], last);
  }

  /** "foo" followed by a final quantum, encoded with its padding. */
  lemma FooThenPadded(last: seq<byte>, group: string)
    requires 1 <= |last| <= 3 && EncodeGroup(last) == group
    ensures Encode([102, 111, 111] + last) == "Zm9v" + group + Padding(|last|)
  {
    FooThen(last);
    assert Padding(3 + |last|) == Padding(|last|);
  }

  /** The test vectors of section 10 of RFC 4648 beyond one group: "foob",
      "fooba" and "foobar" and their padded encodings. */
  lemma Rfc4648EncodeVectorsLong()
    ensures Encode([102, 111, 111, 98]) == "Zm9vYg=="
    ensures Encode([102, 111, 111, 98, 97]) == "Zm9vYmE="
    ensures Encode([102, 111, 111, 98, 97, 114]) == "Zm9vYmFy"
  {
    EncodeFoob();
    EncodeFooba();
    EncodeFoobar();
  }

  lemma EncodeFoob()
    ensures Encode([102, 111, 111, 98]) == "Zm9vYg=="
  {
    assert EncodeGroup([98]) == "Yg" by { Rfc4648GroupVectors(); }
    FooThenPadded([98], "Yg");
    assert [102, 111, 111] + [98] == [102, 111, 111, 98];
  }

  lemma EncodeFooba()
    ensures Encode([102, 111, 111, 98, 97]) == "Zm9vYmE="
  {
    assert EncodeGroup([98, 97]) == "YmE" by { Rfc4648GroupVectors(); }
    FooThenPadded([98, 97], "YmE");
    assert [102, 111, 111] + [98, 97] == [102, 111, 111, 98, 97];
  }

  lemma EncodeFoobar()
    ensures Encode([102, 111, 111, 98, 97, 114]) == "Zm9vYmFy"
  {
    assert EncodeGroup([98, 97, 114]) == "YmFy" by { Rfc4648GroupVectors(); }
    FooThenPadded([98, 97, 114], "YmFy");
    assert [102, 111, 111] + [98, 97, 114] == [102, 111, 111, 98, 97, 114];
  }

  /** The same vectors decoded: "Zm9vYg==" and "Zm9vYmFy". */
  lemma Rfc4648DecodeVectors()
    ensures Decode("Zm9vYg==") == Some([102, 111, 111, 98])
    ensures Decode("Zm9vYmFy") == Some([102, 111, 111, 98, 97, 114])
  {
    RoundTrip([102, 111, 111, 98]);
    RoundTrip([102, 111, 111, 98, 97, 114]);
    Rfc4648EncodeVectorsLong();
  }

  /** Values 62 and 63, which the RFC 4648 vectors never reach, are written
      '+' and '/' as in section 4, not '-' and '_' as in the URL-safe
      alphabet of section 5. */
  lemma StandardAlphabetTail()
    ensures Encode([251, 255, 191]) == "+/+/"
    ensures Decode("+/+/") == Some([251, 255, 191])
  {
    EncodeUnpaddedShort([251, 255, 191]);
    assert CharOf(62) == '+' && CharOf(63) == '/';
    RoundTrip([251, 255, 191]);
  }

  /** Forgiving decoding accepts nonzero discarded bits: in "Zh==" the last
      four bits of 'h' are 0001, not 0000. */
  lemma ForgivingDecodeDiscardsBits()
    ensures Decode("Zh==") == Some([102])
  {
    StripWhitespaceNoop("Zh==");
    assert StripPadding("Zh==") == "Zh";
    DecodeUnpaddedLast("Zh");
    assert ValueOf('Z') == 25 && ValueOf('h') == 33;
  }

  /** Forgiving decoding accepts missing padding. */
  lemma ForgivingDecodeOptionalPadding()
    ensures Decode("Zm8") == Some([102, 111])
  {
    StripWhitespaceNoop("Zm8");
    DecodeUnpaddedLast("Zm8");
    assert ValueOf('Z') == 25 && ValueOf('m') == 38 && ValueOf('8') == 60;
  }

  /** Forgiving decoding refuses a length of one more than a multiple of four,
      also when a third padding character produces it. */
  lemma ForgivingDecodeRefusesBadLength()
    ensures Decode("Zm9vY") == None
    ensures Decode("Zg===") == None
  {
    StripWhitespaceNoop("Zm9vY");
    assert StripPadding("Zm9vY") == "Zm9vY";
    StripWhitespaceNoop("Zg===");
    assert StripPadding("Zg===") == "Zg===";
  }
}
