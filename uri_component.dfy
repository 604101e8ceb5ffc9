/** JavaScript's `decodeURIComponent` (the Decode operation of ECMA-262,
    section 19.2.6.1, with an empty reserved set) and, as its partner,
    `encodeURIComponent`. A `None` result stands for the URIError that
    `decodeURIComponent` throws on a malformed escape. */
module UriComponent {
  import opened Wrappers
  import opened Text

  function HexValue(c: char): Option<nat> {
    if '0' <= c <= '9' then Some(c as int - '0' as int)
    else if 'A' <= c <= 'F' then Some(c as int - 'A' as int + 10)
    else if 'a' <= c <= 'f' then Some(c as int - 'a' as int + 10)
    else None
  }

  /** The byte written as `%XY` at position `k`, if there is one. */
  function ByteAt(s: string, k: nat): (r: Option<nat>)
    ensures r.Some? ==> r.value < 256
  {
    if k + 3 <= |s| && s[k] == '%' then
      match (HexValue(s[k + 1]), HexValue(s[k + 2]))
      case (Some(hi), Some(lo)) => if hi < 16 && lo < 16 then Some(16 * hi + lo) else None
      case _ => None
    else None
  }

  /** The low six bits of a UTF-8 continuation byte `%XY` at position `k`. */
  function ContinuationAt(s: string, k: nat): (r: Option<nat>)
    ensures r.Some? ==> r.value < 64
  {
    match ByteAt(s, k)
    case Some(b) => if 0x80 <= b < 0xC0 then Some(b - 0x80) else None
    case None => None
  }

  /** One escape at the start of `s` (which starts with `%`): the character
      its one to four UTF-8 bytes encode and the number of input characters
      they take, or None when the bytes are not the shortest UTF-8 form of a
      Unicode scalar value. */
  function DecodeEscape(s: string): (r: Option<(char, nat)>)
    ensures r.Some? ==> 3 <= r.value.1 <= |s|
  {
    match ByteAt(s, 0)
    case None => None
    case Some(b0) =>
      if b0 < 0x80 then Some((b0 as char, 3))
      else if b0 < 0xC0 then None
      else if b0 < 0xE0 then
        match ContinuationAt(s, 3)
        case None => None
        case Some(c1) =>
          var cp := (b0 - 0xC0) * 64 + c1;
          if cp < 0x80 then None else Some((cp as char, 6))
      else if b0 < 0xF0 then
        match (ContinuationAt(s, 3), ContinuationAt(s, 6))
        case (Some(c1), Some(c2)) =>
          var cp := (b0 - 0xE0) * 4096 + c1 * 64 + c2;
          if cp < 0x800 || (0xD800 <= cp <= 0xDFFF) then None else Some((cp as char, 9))
        case _ => None
      else if b0 < 0xF8 then
        match (ContinuationAt(s, 3), ContinuationAt(s, 6), ContinuationAt(s, 9))
        case (Some(c1), Some(c2), Some(c3)) =>
          var cp := (b0 - 0xF0) * 262144 + c1 * 4096 + c2 * 64 + c3;
          if cp < 0x10000 || cp > 0x10FFFF then None else Some((cp as char, 12))
        case _ => None
      else None
  }

  /** `decodeURIComponent(s)`; None when it throws URIError. */
  function Decode(s: string): Option<string>
    decreases |s|
  {
    if s == [] then Some([])
    else if s[0] != '%' then
      match Decode(s[1..])
      case Some(t) => Some([s[0]] + t)
      case None => None
    else
      match DecodeEscape(s)
      case None => None
      case Some((c, used)) =>
        match Decode(s[used..])
        case Some(t) => Some([c] + t)
        case None => None
  }

  /** Text without `%` decodes to itself. */
  lemma {:induction false} DecodePlain(s: string)
    requires '%' !in s
    ensures Decode(s) == Some(s)
  {
    if s != [] {
      DecodePlain(s[1..]);
      assert [s[0]] + s[1..] == s;
    }
  }

  // ---------------------------------------------------------------------------
  // encodeURIComponent
  // ---------------------------------------------------------------------------

  /** The characters `encodeURIComponent` leaves as they are. */
  predicate Unreserved(c: char) {
    || IsAlnum(c)
    || c == '-' || c == '_' || c == '.' || c == '!' || c == '~' || c == '*' || c == '\'' || c == '(' || c == ')'
  }

  function HexDigit(d: nat): (c: char)
    requires d < 16
    ensures HexValue(c) == Some(d)
  {
    "0123456789ABCDEF"[d]
  }

  function EscapeByte(b: nat): (e: string)
    requires b < 256
    ensures |e| == 3 && e[0] == '%'
  {
    ['%', HexDigit(b / 16), HexDigit(b % 16)]
  }

  /** The UTF-8 bytes of a Unicode scalar value. */
  function Utf8(cp: nat): (bytes: seq<nat>)
    requires cp <= 0x10FFFF
    ensures 1 <= |bytes| <= 4
    ensures forall i :: 0 <= i < |bytes| ==> bytes[i] < 256
  {
    if cp < 0x80 then [cp]
    else if cp < 0x800 then [0xC0 + cp / 64, 0x80 + cp % 64]
    else if cp < 0x10000 then [0xE0 + cp / 4096, 0x80 + (cp / 64) % 64, 0x80 + cp % 64]
    else [0xF0 + cp / 262144, 0x80 + (cp / 4096) % 64, 0x80 + (cp / 64) % 64, 0x80 + cp % 64]
  }

  function EscapeBytes(bytes: seq<nat>): (e: string)
    requires forall i :: 0 <= i < |bytes| ==> bytes[i] < 256
    ensures |e| == 3 * |bytes|
  {
    if bytes == [] then "" else EscapeByte(bytes[0]) + EscapeBytes(bytes[1..])
  }

  function EncodeChar(c: char): string {
    if Unreserved(c) then [c] else EscapeBytes(Utf8(c as int))
  }

  /** `encodeURIComponent(s)`. */
  function Encode(s: string): string {
    if s == [] then "" else EncodeChar(s[0]) + Encode(s[1..])
  }

  /** The characters an encoding can contain. */
  predicate EncodedChar(c: char) {
    Unreserved(c) || c == '%'
  }

  lemma HexDigitAlnum(d: nat)
    requires d < 16
    ensures IsAlnum(HexDigit(d))
  {
  }

  lemma {:induction false} EscapeBytesAlphabet(bytes: seq<nat>)
    requires forall i :: 0 <= i < |bytes| ==> bytes[i] < 256
    ensures forall i :: 0 <= i < |EscapeBytes(bytes)| ==> EncodedChar(EscapeBytes(bytes)[i])
  {
    if bytes != [] {
      EscapeBytesAlphabet(bytes[1..]);
      HexDigitAlnum(bytes[0] / 16);
      HexDigitAlnum(bytes[0] % 16);
      var e := EscapeByte(bytes[0]);
      var r := EscapeBytes(bytes[1..]);
      assert EscapeBytes(bytes) == e + r;
    }
  }

  /** `encodeURIComponent` writes only unreserved characters and `%`. */
  lemma {:induction false} EncodeAlphabet(s: string)
    ensures forall i :: 0 <= i < |Encode(s)| ==> EncodedChar(Encode(s)[i])
  {
    if s != [] {
      EncodeAlphabet(s[1..]);
      if !Unreserved(s[0]) {
        EscapeBytesAlphabet(Utf8(s[0] as int));
      }
      assert Encode(s) == EncodeChar(s[0]) + Encode(s[1..]);
    }
  }

  lemma ByteAtEscape(b: nat, k: nat, s: string)
    requires b < 256 && k + 3 <= |s| && s[k..k + 3] == EscapeByte(b)
    ensures ByteAt(s, k) == Some(b)
  {
    var e := s[k..k + 3];
    assert e == ['%', HexDigit(b / 16), HexDigit(b % 16)];
    assert s[k] == e[0] && s[k + 1] == e[1] && s[k + 2] == e[2];
    assert HexValue(s[k + 1]) == Some(b / 16) && HexValue(s[k + 2]) == Some(b % 16);
    assert 16 * (b / 16) + b % 16 == b;
  }

  /** An encoded character is decoded back, whatever follows it. */
  lemma DecodeEscapeOfChar(c: char, rest: string)
    requires !Unreserved(c)
    ensures var s := EncodeChar(c) + rest;
      s[0] == '%' && DecodeEscape(s) == Some((c, |EncodeChar(c)|))
  {
    var cp := c as int;
    assert EncodeChar(c) == EscapeBytes(Utf8(cp));
    if cp < 0x80 {
      DecodeEncodedOne(c, rest);
    } else if cp < 0x800 {
      DecodeEncodedTwo(c, rest);
    } else if cp < 0x10000 {
      DecodeEncodedThree(c, rest);
    } else {
      DecodeEncodedFour(c, rest);
    }
  }

  lemma DecodeEncodedOne(c: char, rest: string)
    requires !Unreserved(c) && c as int < 0x80
    ensures |EncodeChar(c)| == 3 && DecodeEscape(EncodeChar(c) + rest) == Some((c, 3))
  {
    EncodedByteAt(c, rest, 0);
  }

  lemma DecodeEncodedTwo(c: char, rest: string)
    requires !Unreserved(c) && 0x80 <= c as int < 0x800
    ensures |EncodeChar(c)| == 6 && DecodeEscape(EncodeChar(c) + rest) == Some((c, 6))
  {
    EncodedByteAt(c, rest, 0);
    EncodedByteAt(c, rest, 1);
    DecodeTwo(c as int, EncodeChar(c) + rest);
  }

  lemma DecodeEncodedThree(c: char, rest: string)
    requires !Unreserved(c) && 0x800 <= c as int < 0x10000
    ensures |EncodeChar(c)| == 9 && DecodeEscape(EncodeChar(c) + rest) == Some((c, 9))
  {
    EncodedByteAt(c, rest, 0);
    EncodedByteAt(c, rest, 1);
    EncodedByteAt(c, rest, 2);
    DecodeThree(c as int, EncodeChar(c) + rest);
  }

  lemma DecodeEncodedFour(c: char, rest: string)
    requires !Unreserved(c) && 0x10000 <= c as int
    ensures |EncodeChar(c)| == 12 && DecodeEscape(EncodeChar(c) + rest) == Some((c, 12))
  {
    EncodedByteAt(c, rest, 0);
    EncodedByteAt(c, rest, 1);
    EncodedByteAt(c, rest, 2);
    EncodedByteAt(c, rest, 3);
    DecodeFour(c as int, EncodeChar(c) + rest);
  }

  lemma PrefixSlice(e: string, rest: string, i: nat, j: nat)
    requires i <= j <= |e|
    ensures (e + rest)[i..j] == e[i..j]
  {
    forall k | 0 <= k < j - i
      ensures (e + rest)[i..j][k] == e[i..j][k]
    {
      assert (e + rest)[i + k] == e[i + k];
    }
  }

  /** The `j`-th escape of escaped bytes holds the `j`-th byte, whatever
      follows them. */
  lemma EscapedByteAt(bytes: seq<nat>, rest: string, j: nat)
    requires forall i :: 0 <= i < |bytes| ==> bytes[i] < 256
    requires j < |bytes|
    ensures ByteAt(EscapeBytes(bytes) + rest, 3 * j) == Some(bytes[j])
  {
    var e := EscapeBytes(bytes);
    var s := e + rest;
    EscapeBytesAt(bytes, j);
    PrefixSlice(e, rest, 3 * j, 3 * j + 3);
    ByteAtEscape(bytes[j], 3 * j, s);
  }

  /** The `j`-th escape of an encoded character holds its `j`-th UTF-8 byte. */
  lemma EncodedByteAt(c: char, rest: string, j: nat)
    requires !Unreserved(c) && j < |Utf8(c as int)|
    ensures ByteAt(EncodeChar(c) + rest, 3 * j) == Some(Utf8(c as int)[j])
  {
    var bytes := Utf8(c as int);
    assert EncodeChar(c) == EscapeBytes(bytes);
    EscapedByteAt(bytes, rest, j);
  }

  lemma DecodeTwo(cp: nat, s: string)
    requires 0x80 <= cp < 0x800
    requires ByteAt(s, 0) == Some(Utf8(cp)[0]) && ByteAt(s, 3) == Some(Utf8(cp)[1])
    ensures DecodeEscape(s) == Some((cp as char, 6))
  {
    TwoBytesArith(cp);
    assert ContinuationAt(s, 3) == Some(cp % 64);
  }

  lemma TwoBytesArith(cp: nat)
    requires 0x80 <= cp < 0x800
    ensures 2 <= cp / 64 < 32
    ensures (cp / 64) * 64 + cp % 64 == cp
  {
  }

  lemma DecodeThree(cp: nat, s: string)
    requires 0x800 <= cp < 0x10000 && !(0xD800 <= cp <= 0xDFFF)
    requires ByteAt(s, 0) == Some(Utf8(cp)[0]) && ByteAt(s, 3) == Some(Utf8(cp)[1])
    requires ByteAt(s, 6) == Some(Utf8(cp)[2])
    ensures DecodeEscape(s) == Some((cp as char, 9))
  {
    ThreeBytesArith(cp);
    assert ContinuationAt(s, 3) == Some((cp / 64) % 64);
    assert ContinuationAt(s, 6) == Some(cp % 64);
  }

  lemma ThreeBytesArith(cp: nat)
    requires 0x800 <= cp < 0x10000
    ensures cp / 4096 < 16
    ensures (cp / 4096) * 4096 + ((cp / 64) % 64) * 64 + cp % 64 == cp
  {
    var a := cp / 64;
    assert cp == 64 * a + cp % 64;
    assert a == 64 * (a / 64) + a % 64;
    assert cp / 4096 == a / 64;
  }

  lemma DecodeFour(cp: nat, s: string)
    requires 0x10000 <= cp <= 0x10FFFF
    requires ByteAt(s, 0) == Some(Utf8(cp)[0]) && ByteAt(s, 3) == Some(Utf8(cp)[1])
    requires ByteAt(s, 6) == Some(Utf8(cp)[2]) && ByteAt(s, 9) == Some(Utf8(cp)[3])
    ensures DecodeEscape(s) == Some((cp as char, 12))
  {
    FourBytesArith(cp);
    assert ContinuationAt(s, 3) == Some((cp / 4096) % 64);
    assert ContinuationAt(s, 6) == Some((cp / 64) % 64);
    assert ContinuationAt(s, 9) == Some(cp % 64);
  }

  lemma FourBytesArith(cp: nat)
    requires 0x10000 <= cp <= 0x10FFFF
    ensures cp / 262144 < 8
    ensures (cp / 262144) * 262144 + ((cp / 4096) % 64) * 4096 + ((cp / 64) % 64) * 64 + cp % 64 == cp
  {
    var a := cp / 64;
    var b := a / 64;
    assert cp == 64 * a + cp % 64;
    assert a == 64 * b + a % 64;
    assert cp / 4096 == b;
    assert b == 64 * (b / 64) + b % 64;
    assert cp / 262144 == b / 64;
  }

  lemma {:induction false} EscapeBytesAt(bytes: seq<nat>, j: nat)
    requires forall i :: 0 <= i < |bytes| ==> bytes[i] < 256
    requires j < |bytes|
    ensures EscapeBytes(bytes)[3 * j..3 * j + 3] == EscapeByte(bytes[j])
  {
    var e := EscapeBytes(bytes);
    if j > 0 {
      EscapeBytesAt(bytes[1..], j - 1);
      assert e[3 * j..3 * j + 3] == EscapeBytes(bytes[1..])[3 * (j - 1)..3 * (j - 1) + 3];
    }
  }

  /** decodeURIComponent(encodeURIComponent(s)) == s. */
  lemma {:induction false} DecodeEncode(s: string)
    ensures Decode(Encode(s)) == Some(s)
  {
    if s != [] {
      var e := Encode(s);
      var head := EncodeChar(s[0]);
      var rest := Encode(s[1..]);
      assert e == head + rest;
      DecodeEncode(s[1..]);
      if Unreserved(s[0]) {
        assert e[0] == s[0] && s[0] != '%';
        assert e[1..] == rest;
      } else {
        DecodeEscapeOfChar(s[0], rest);
        assert e[|head|..] == rest;
      }
      assert [s[0]] + s[1..] == s;
    }
  }
}
