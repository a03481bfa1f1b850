/** Bytes to and from base64 text through a binary string: `btoa` encodes
    per section 4 of RFC 4648, and `atob` decodes by the WHATWG
    forgiving-base64 algorithm (white space dropped, padding optional, the
    unused low bits of the last character ignored). */
module Events {

  import opened Nostr

  type Sextet = x: int | 0 <= x < 64

  // ---------------------------------------------------------------------
  // The base64 alphabet (RFC 4648, section 4, table 1)

  function EncodeChar(v: Sextet): (c: char)
  {
    if v < 26 then ('A' as int + v) as char
    else if v < 52 then ('a' as int + (v - 26)) as char
    else if v < 62 then ('0' as int + (v - 52)) as char
    else if v == 62 then '+'
    else '/'
  }

  predicate IsBase64Char(c: char)
  {
    ('A' <= c <= 'Z') || ('a' <= c <= 'z') || ('0' <= c <= '9') || c == '+' || c == '/'
  }

  function CharValue(c: char): (v: Sextet)
    requires IsBase64Char(c)
  {
    if 'A' <= c <= 'Z' then c as int - 'A' as int
    else if 'a' <= c <= 'z' then c as int - 'a' as int + 26
    else if '0' <= c <= '9' then c as int - '0' as int + 52
    else if c == '+' then 62
    else 63
  }

  /** The alphabet is a bijection between sextets and its 64 characters. */
  lemma CharValueOfEncodeChar(v: Sextet)
    ensures IsBase64Char(EncodeChar(v)) && CharValue(EncodeChar(v)) == v
  {
  }

  lemma EncodeCharOfCharValue(c: char)
    requires IsBase64Char(c)
    ensures EncodeChar(CharValue(c)) == c
  {
  }

  // ---------------------------------------------------------------------
  // Encoding

  /** The sextets of the encoding without padding: four per full group of
      three bytes, then two for one remaining byte or three for two, the
      missing low bits being zero. */
  function Sextets(bytes: seq<Byte>): (v: seq<Sextet>)
    decreases |bytes|
  {
    if |bytes| == 0 then []
    else if |bytes| == 1 then [bytes[0] / 4, (bytes[0] % 4) * 16]
    else if |bytes| == 2 then [bytes[0] / 4, (bytes[0] % 4) * 16 + bytes[1] / 16, (bytes[1] % 16) * 4]
    else
      [bytes[0] / 4, (bytes[0] % 4) * 16 + bytes[1] / 16, (bytes[1] % 16) * 4 + bytes[2] / 64, bytes[2] % 64]
      + Sextets(bytes[3..])
  }

  function Chars(sx: seq<Sextet>): (s: string)
    ensures |s| == |sx|
  {
    seq(|sx|, i requires 0 <= i < |sx| => EncodeChar(sx[i]))
  }

  /** "==" after a final group of one byte, "=" after one of two. */
  function Padding(n: nat): (p: string)
  {
    if n % 3 == 1 then "==" else if n % 3 == 2 then "=" else ""
  }

  function Base64Encode(bytes: seq<Byte>): (s: string)
  {
    Chars(Sextets(bytes)) + Padding(|bytes|)
  }

  /** Four sextets per full group of three bytes, and one more than the
      bytes left over for a partial group. */
  lemma {:induction false} SextetsLength(bytes: seq<Byte>)
    ensures |Sextets(bytes)| == 4 * (|bytes| / 3) + (if |bytes| % 3 == 0 then 0 else |bytes| % 3 + 1)
    decreases |bytes|
  {
    if |bytes| >= 3 {
      SextetsLength(bytes[3..]);
      assert |bytes[3..]| / 3 == |bytes| / 3 - 1;
    }
  }

  /** The encoded length is `4 * ceil(n / 3)`. */
  lemma Base64EncodeLength(bytes: seq<Byte>)
    ensures |Base64Encode(bytes)| == 4 * ((|bytes| + 2) / 3)
  {
    SextetsLength(bytes);
  }

  // ---------------------------------------------------------------------
  // Forgiving decoding

  /** ASCII white space: TAB, LF, FF, CR and SPACE. */
  predicate IsAsciiWhitespace(c: char)
  {
    c == '\t' || c == '\n' || c as int == 0x0C || c == '\r' || c == ' '
  }

  function StripWhitespace(s: string): (r: string)
    ensures |r| <= |s|
  {
    if |s| == 0 then ""
    else (if IsAsciiWhitespace(s[0]) then "" else [s[0]]) + StripWhitespace(s[1..])
  }

  /** Stripping removes exactly the ASCII white space: none is left, every
      other character stays, and the characters are kept in order, since
      stripping a concatenation concatenates the stripped parts. */
  lemma {:induction false} StripWhitespaceRemovesExactlyWhitespace(s: string)
    ensures forall k :: 0 <= k < |StripWhitespace(s)| ==> !IsAsciiWhitespace(StripWhitespace(s)[k])
    ensures forall c :: c in s && !IsAsciiWhitespace(c) <==> c in StripWhitespace(s)
    ensures (forall k :: 0 <= k < |s| ==> !IsAsciiWhitespace(s[k])) ==> StripWhitespace(s) == s
  {
    if |s| > 0 {
      StripWhitespaceRemovesExactlyWhitespace(s[1..]);
      assert s == [s[0]] + s[1..];
      assert forall c :: c in s <==> c == s[0] || c in s[1..];
    }
  }

  lemma {:induction false} StripWhitespaceAppend(a: string, b: string)
    ensures StripWhitespace(a + b) == StripWhitespace(a) + StripWhitespace(b)
  {
    if |a| > 0 {
      StripWhitespaceAppend(a[1..], b);
      assert (a + b)[1..] == a[1..] + b;
    } else {
      assert a + b == b;
    }
  }

  /** When the length is a multiple of four, one or two trailing `=` go. */
  function StripPadding(s: string): (r: string)
  {
    if |s| % 4 == 0 && |s| >= 2 && s[|s| - 2] == '=' && s[|s| - 1] == '=' then s[..|s| - 2]
    else if |s| % 4 == 0 && |s| >= 1 && s[|s| - 1] == '=' then s[..|s| - 1]
    else s
  }

  function Values(s: string): (v: seq<Sextet>)
    requires forall i :: 0 <= i < |s| ==> IsBase64Char(s[i])
    ensures |v| == |s|
  {
    seq(|s|, i requires 0 <= i < |s| => CharValue(s[i]))
  }

  /** The bytes of 24-bit groups of sextets; a final group of two or three
      sextets gives one or two bytes, its low bits being dropped. */
  function DecodeSextets(v: seq<Sextet>): (bytes: seq<Byte>)
    decreases |v|
  {
    if |v| < 2 then []
    else
      var a: int, b: int := v[0], v[1];
      if |v| == 2 then [a * 4 + b / 16]
      else
        var c: int := v[2];
        if |v| == 3 then [a * 4 + b / 16, (b % 16) * 16 + c / 4]
        else [a * 4 + b / 16, (b % 16) * 16 + c / 4, (c % 4) * 64 + v[3]] + DecodeSextets(v[4..])
  }

  predicate AllBase64(s: string)
  {
    forall i :: 0 <= i < |s| ==> IsBase64Char(s[i])
  }

  /** Forgiving-base64 decode; None where `atob` throws. */
  function ForgivingDecode(s: string): (r: Option<seq<Byte>>)
    ensures r.Some? <==> |StripPadding(StripWhitespace(s))| % 4 != 1 && AllBase64(StripPadding(StripWhitespace(s)))
  {
    var data := StripPadding(StripWhitespace(s));
    if |data| % 4 == 1 then None
    else if !AllBase64(data) then None
    else Some(DecodeSextets(Values(data)))
  }

  // ---------------------------------------------------------------------
  // Binary strings, btoa and atob

  /** `String.fromCharCode` of each byte. */
  function BinaryString(bytes: seq<Byte>): (s: string)
    ensures |s| == |bytes| && forall i :: 0 <= i < |s| ==> s[i] as int == bytes[i]
  {
    seq(|bytes|, i requires 0 <= i < |bytes| => bytes[i] as char)
  }

  predicate IsBinaryString(s: string)
  {
    forall i :: 0 <= i < |s| ==> s[i] as int < 256
  }

  function CharCodes(s: string): (bytes: seq<Byte>)
    requires IsBinaryString(s)
    ensures |bytes| == |s| && forall i :: 0 <= i < |s| ==> bytes[i] == s[i] as int
  {
    seq(|s|, i requires 0 <= i < |s| => s[i] as int)
  }

  /** btoa: None (InvalidCharacterError) for a character above U+00FF. */
  function Btoa(s: string): (r: Option<string>)
    ensures r.Some? <==> IsBinaryString(s)
  {
    if IsBinaryString(s) then Some(Base64Encode(CharCodes(s))) else None
  }

  /** atob: None (InvalidCharacterError) where forgiving decoding fails. */
  function Atob(s: string): (r: Option<string>)
    ensures r.Some? <==> ForgivingDecode(s).Some?
    ensures r.Some? ==> IsBinaryString(r.value)
  {
    match ForgivingDecode(s)
    case None => None
    case Some(bytes) => Some(BinaryString(bytes))
  }

  // ---------------------------------------------------------------------
  // The round trip

  lemma ByteGroupRoundTrip(a: Byte, b: Byte, c: Byte)
    ensures (a / 4) * 4 + ((a % 4) * 16 + b / 16) / 16 == a
    ensures (((a % 4) * 16 + b / 16) % 16) * 16 + ((b % 16) * 4 + c / 64) / 4 == b
    ensures (((b % 16) * 4 + c / 64) % 4) * 64 + c % 64 == c
  {
  }

  lemma {:induction false} DecodeSextetsOfSextets(bytes: seq<Byte>)
    ensures DecodeSextets(Sextets(bytes)) == bytes
    decreases |bytes|
  {
    if |bytes| >= 3 {
      DecodeFirstGroup(bytes);
      DecodeSextetsOfSextets(bytes[3..]);
      assert bytes == [bytes[0], bytes[1], bytes[2]] + bytes[3..];
    } else if |bytes| == 2 {
      ByteGroupRoundTrip(bytes[0], bytes[1], 0);
    } else if |bytes| == 1 {
      ByteGroupRoundTrip(bytes[0], 0, 0);
    }
  }

  /** The first four sextets of an encoding decode to its first three bytes. */
  lemma DecodeFirstGroup(bytes: seq<Byte>)
    requires |bytes| >= 3
    ensures DecodeSextets(Sextets(bytes)) == [bytes[0], bytes[1], bytes[2]] + DecodeSextets(Sextets(bytes[3..]))
  {
    SextetsFirstGroup(bytes);
    DecodeGroup(bytes[0], bytes[1], bytes[2], Sextets(bytes[3..]));
  }

  /** The four sextets of a group of three bytes. */
  function GroupSextets(a: Byte, b: Byte, c: Byte): (g: seq<Sextet>)
    ensures |g| == 4
  {
    [a / 4, (a % 4) * 16 + b / 16, (b % 16) * 4 + c / 64, c % 64]
  }

  lemma SextetsFirstGroup(bytes: seq<Byte>)
    requires |bytes| >= 3
    ensures Sextets(bytes) == GroupSextets(bytes[0], bytes[1], bytes[2]) + Sextets(bytes[3..])
  {
  }

  /** A group's four sextets in front decode to its three bytes in front. */
  lemma DecodeGroup(a: Byte, b: Byte, c: Byte, rest: seq<Sextet>)
    ensures DecodeSextets(GroupSextets(a, b, c) + rest) == [a, b, c] + DecodeSextets(rest)
  {
    var g := GroupSextets(a, b, c);
    assert (g + rest)[4..] == rest;
    ByteGroupRoundTrip(a, b, c);
  }

  lemma ValuesOfChars(sx: seq<Sextet>)
    ensures AllBase64(Chars(sx)) && Values(Chars(sx)) == sx
  {
    forall i | 0 <= i < |sx|
      ensures IsBase64Char(Chars(sx)[i]) && CharValue(Chars(sx)[i]) == sx[i]
    {
      CharValueOfEncodeChar(sx[i]);
    }
  }

  lemma {:induction false} StripWhitespaceKeeps(s: string)
    requires forall i :: 0 <= i < |s| ==> !IsAsciiWhitespace(s[i])
    ensures StripWhitespace(s) == s
  {
    if |s| > 0 {
      StripWhitespaceKeeps(s[1..]);
    }
  }

  /** The unpadded length modulo four: 2 after a final group of one byte,
      3 after one of two, 0 otherwise. */
  lemma {:induction false} SextetLengthMod(bytes: seq<Byte>)
    ensures |Sextets(bytes)| % 4 == if |bytes| % 3 == 1 then 2 else if |bytes| % 3 == 2 then 3 else 0
    decreases |bytes|
  {
    if |bytes| >= 3 {
      var rest := bytes[3..];
      SextetLengthMod(rest);
      SextetsFirstGroup(bytes);
      assert |Sextets(bytes)| == 4 + |Sextets(rest)|;
      assert |bytes| == |rest| + 3;
    }
  }

  /** No encoded character is a padding character. */
  lemma EncodedCharIsNotPadding(sx: seq<Sextet>, i: nat)
    requires i < |sx|
    ensures Chars(sx)[i] != '='
  {
    CharValueOfEncodeChar(sx[i]);
  }

  /** The padding of an encoding is exactly what forgiving decoding strips. */
  lemma StripPaddingOfEncoding(bytes: seq<Byte>)
    ensures StripPadding(Base64Encode(bytes)) == Chars(Sextets(bytes))
  {
    var n := |bytes|;
    var body := Chars(Sextets(bytes));
    SextetLengthMod(bytes);
    if n % 3 == 1 {
      StripsTwo(body);
    } else if n % 3 == 2 {
      EncodedCharIsNotPadding(Sextets(bytes), |body| - 1);
      StripsOne(body);
    } else {
      if |body| > 0 {
        EncodedCharIsNotPadding(Sextets(bytes), |body| - 1);
      }
      StripsNone(body);
    }
  }

  lemma StripsTwo(body: string)
    requires |body| % 4 == 2
    ensures StripPadding(body + "==") == body
  {
    var s := body + "==";
    assert s[..|s| - 2] == body;
  }

  lemma StripsOne(body: string)
    requires |body| % 4 == 3 && body[|body| - 1] != '='
    ensures StripPadding(body + "=") == body
  {
    var s := body + "=";
    assert s[|s| - 2] == body[|body| - 1];
    assert s[..|s| - 1] == body;
  }

  lemma StripsNone(body: string)
    requires |body| % 4 == 0 && (|body| > 0 ==> body[|body| - 1] != '=')
    ensures StripPadding(body) == body
  {
  }

  lemma EncodingHasNoWhitespace(bytes: seq<Byte>)
    ensures StripWhitespace(Base64Encode(bytes)) == Base64Encode(bytes)
  {
    var s := Base64Encode(bytes);
    var body := Chars(Sextets(bytes));
    ValuesOfChars(Sextets(bytes));
    forall i | 0 <= i < |s|
      ensures !IsAsciiWhitespace(s[i])
    {
      if i < |body| {
        assert s[i] == body[i];
      }
    }
    StripWhitespaceKeeps(s);
  }

  /** `atob` inverts the encoding of `btoa`: decoding an encoding gives back the bytes. */
  lemma Base64RoundTrip(bytes: seq<Byte>)
    ensures ForgivingDecode(Base64Encode(bytes)) == Some(bytes)
  {
    var sx := Sextets(bytes);
    EncodingHasNoWhitespace(bytes);
    StripPaddingOfEncoding(bytes);
    var data := StripPadding(StripWhitespace(Base64Encode(bytes)));
    assert data == Chars(sx);
    ValuesOfChars(sx);
    SextetLengthMod(bytes);
    DecodeSextetsOfSextets(bytes);
    assert ForgivingDecode(Base64Encode(bytes)) == Some(DecodeSextets(Values(data)));
  }


  /** Decoding is forgiving: an unpadded encoding decodes as well. */
  lemma UnpaddedDecodes()
    ensures ForgivingDecode("QQ") == Some([65])
  {
    var qq := "QQ";
    assert StripWhitespace(qq[1..]) == qq[1..];
    assert StripWhitespace(qq) == qq;
    assert StripPadding(qq) == qq;
    assert Values(qq) == [16, 16];
  }

  /** White space inside the text is dropped before decoding. */
  lemma SpacedDecodes()
    ensures ForgivingDecode("Q Q==") == Some([65])
  {
    var spaced := "Q Q==";
    assert StripWhitespace(spaced[4..]) == "=";
    assert StripWhitespace(spaced[3..]) == "==";
    assert StripWhitespace(spaced[2..]) == "Q==";
    assert StripWhitespace(spaced[1..]) == "Q==";
    assert StripWhitespace(spaced) == "QQ==";
    assert StripPadding("QQ==") == "QQ";
    assert Values("QQ") == [16, 16];
  }

  /** A single character, one more than a multiple of four, is rejected. */
  lemma SingleCharRejected()
    ensures ForgivingDecode("Q").None?
  {
    var q := "Q";
    assert StripWhitespace(q) == q;
  }

  // ---------------------------------------------------------------------
  // The two conversions

  /** uint8ToBase64: one character per byte with that char code, then btoa
      (which cannot fail on such a string). */
  method Uint8ToBase64(u8: array<Byte>) returns (b64: string)
    ensures b64 == Base64Encode(u8[..])
  {
    var binary: string := "";
    for i := 0 to u8.Length
      invariant binary == BinaryString(u8[..i])
    {
      binary := binary + [u8[i] as char];
    }
    assert u8[..u8.Length] == u8[..];
    assert CharCodes(binary) == u8[..];
    var encoded := Btoa(binary);
    b64 := encoded.value;
  }

  /** base64ToUint8: atob, then each char code into a fresh array (the
      Uint8Array store reduces it modulo 256). None when atob throws. */
  method Base64ToUint8(b64: string) returns (r: Option<array<Byte>>)
    ensures r.Some? <==> ForgivingDecode(b64).Some?
    ensures r.Some? ==> fresh(r.value) && r.value[..] == ForgivingDecode(b64).value
  {
    var decoded := Atob(b64);
    if decoded.None? {
      return None;
    }
    var bin := decoded.value;
    var u8 := new Byte[|bin|];
    for i := 0 to |bin|
      invariant forall j :: 0 <= j < i ==> u8[j] == bin[j] as int
    {
      u8[i] := (bin[i] as int) % 256;
    }
    assert u8[..] == CharCodes(bin);
    return Some(u8);
  }

  /** The conversions are inverse: bytes encoded and decoded again are the same bytes. */
  method RoundTrip(u8: array<Byte>) returns (r: Option<array<Byte>>)
    ensures r.Some? && r.value[..] == u8[..]
  {
    var b64 := Uint8ToBase64(u8);
    Base64RoundTrip(u8[..]);
    r := Base64ToUint8(b64);
  }
}
