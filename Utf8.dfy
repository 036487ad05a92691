/** UTF-8 as Python's strict `bytes.decode('utf-8')` reads it: every
    character is one to four octets; overlong forms, encoded surrogates,
    code points above U+10FFFF, stray continuation octets and truncated
    sequences are errors. Characters are Unicode scalar values. */
module Utf8 {
  import opened Wrappers
  import opened Bytes

  /** An octet of the form 10xxxxxx. */
  predicate IsContinuation(b: Byte)
  {
    0x80 <= b <= 0xBF
  }

  /** The shortest encoding of one character. */
  function EncodeChar(c: char): (b: seq<Byte>)
    ensures 1 <= |b| <= 4
  {
    var cp := c as int;
    if cp < 0x80 then [cp]
    else if cp < 0x800 then [0xC0 + cp / 64, 0x80 + cp % 64]
    else if cp < 0x10000 then [0xE0 + cp / 4096, 0x80 + (cp / 64) % 64, 0x80 + cp % 64]
    else [0xF0 + cp / 262144, 0x80 + (cp / 4096) % 64, 0x80 + (cp / 64) % 64, 0x80 + cp % 64]
  }

  function Encode(s: string): (b: seq<Byte>)
    ensures |s| <= |b| <= 4 * |s|
  {
    if |s| == 0 then [] else EncodeChar(s[0]) + Encode(s[1..])
  }

  /** A character in front of a string encodes in front of its encoding. */
  lemma EncodeCons(c: char, s: string, b: seq<Byte>, n: nat)
    requires n <= |b| && EncodeChar(c) == b[..n] && Encode(s) == b[n..]
    ensures Encode([c] + s) == b
  {
    assert ([c] + s)[1..] == s;
    assert b == b[..n] + b[n..];
  }

  /** A two-octet character: U+0080 to U+07FF. */
  function DecodeTwo(b0: Byte, b1: Byte): (r: Option<char>)
    ensures r.Some? ==> EncodeChar(r.value) == [b0, b1]
  {
    if 0xC2 <= b0 <= 0xDF && IsContinuation(b1) then
      var cp := (b0 - 0xC0) * 64 + (b1 - 0x80);
      assert cp / 64 == b0 - 0xC0 && cp % 64 == b1 - 0x80;
      Some(cp as char)
    else None
  }

  /** A three-octet character: U+0800 to U+FFFF less the surrogates. */
  function DecodeThree(b0: Byte, b1: Byte, b2: Byte): (r: Option<char>)
    ensures r.Some? ==> EncodeChar(r.value) == [b0, b1, b2]
  {
    if 0xE0 <= b0 <= 0xEF && IsContinuation(b1) && IsContinuation(b2) then
      var cp := (b0 - 0xE0) * 4096 + (b1 - 0x80) * 64 + (b2 - 0x80);
      if cp < 0x800 || 0xD800 <= cp <= 0xDFFF then None
      else
        ThreeOctetArithmetic(b0 - 0xE0, b1 - 0x80, b2 - 0x80);
        Some(cp as char)
    else None
  }

  /** A four-octet character: U+10000 to U+10FFFF. */
  function DecodeFour(b0: Byte, b1: Byte, b2: Byte, b3: Byte): (r: Option<char>)
    ensures r.Some? ==> EncodeChar(r.value) == [b0, b1, b2, b3]
  {
    if 0xF0 <= b0 <= 0xF4 && IsContinuation(b1) && IsContinuation(b2) && IsContinuation(b3) then
      var cp := (b0 - 0xF0) * 262144 + (b1 - 0x80) * 4096 + (b2 - 0x80) * 64 + (b3 - 0x80);
      if cp < 0x10000 || cp > 0x10FFFF then None
      else
        FourOctetArithmetic(b0 - 0xF0, b1 - 0x80, b2 - 0x80, b3 - 0x80);
        Some(cp as char)
    else None
  }

  lemma ThreeOctetArithmetic(x: int, y: int, z: int)
    requires 0 <= x < 16 && 0 <= y < 64 && 0 <= z < 64
    ensures (x * 4096 + y * 64 + z) / 4096 == x
    ensures ((x * 4096 + y * 64 + z) / 64) % 64 == y
    ensures (x * 4096 + y * 64 + z) % 64 == z
  {
    var cp := x * 4096 + y * 64 + z;
    assert cp == (x * 64 + y) * 64 + z;
    assert cp / 64 == x * 64 + y;
  }

  lemma FourOctetArithmetic(w: int, x: int, y: int, z: int)
    requires 0 <= w < 8 && 0 <= x < 64 && 0 <= y < 64 && 0 <= z < 64
    ensures (w * 262144 + x * 4096 + y * 64 + z) / 262144 == w
    ensures ((w * 262144 + x * 4096 + y * 64 + z) / 4096) % 64 == x
    ensures ((w * 262144 + x * 4096 + y * 64 + z) / 64) % 64 == y
    ensures (w * 262144 + x * 4096 + y * 64 + z) % 64 == z
  {
    var cp := w * 262144 + x * 4096 + y * 64 + z;
    assert cp == ((w * 64 + x) * 64 + y) * 64 + z;
    assert cp / 64 == (w * 64 + x) * 64 + y;
    assert cp / 4096 == w * 64 + x;
  }

  /** The first character of a non-empty octet string and how many octets
      it takes; `None` when the string does not start with a well-formed
      sequence. */
  function DecodeFirst(b: seq<Byte>): (r: Option<(char, nat)>)
    requires |b| > 0
    ensures r.Some? ==> 1 <= r.value.1 <= |b| && EncodeChar(r.value.0) == b[..r.value.1]
  {
    if b[0] < 0x80 then Some((b[0] as char, 1))
    else if 0xC2 <= b[0] <= 0xDF then
      if |b| < 2 then None
      else match DecodeTwo(b[0], b[1])
        case Some(c) => Some((c, 2))
        case None => None
    else if 0xE0 <= b[0] <= 0xEF then
      if |b| < 3 then None
      else match DecodeThree(b[0], b[1], b[2])
        case Some(c) => Some((c, 3))
        case None => None
    else if 0xF0 <= b[0] <= 0xF4 then
      if |b| < 4 then None
      else match DecodeFour(b[0], b[1], b[2], b[3])
        case Some(c) => Some((c, 4))
        case None => None
    else None
  }

  /** Strict decoding of a whole octet string; whenever it succeeds, encoding
      the result gives back exactly those octets. */
  function Decode(b: seq<Byte>): (r: Option<string>)
    ensures r.Some? ==> Encode(r.value) == b
    decreases |b|
  {
    if |b| == 0 then Some("")
    else match DecodeFirst(b)
      case None => None
      case Some((c, n)) =>
        match Decode(b[n..])
        case None => None
        case Some(rest) =>
          EncodeCons(c, rest, b, n);
          Some([c] + rest)
  }

  lemma DecodeTwoEncodeChar(c: char)
    requires 0x80 <= c as int < 0x800
    ensures |EncodeChar(c)| == 2
    ensures 0xC2 <= EncodeChar(c)[0] <= 0xDF
    ensures DecodeTwo(EncodeChar(c)[0], EncodeChar(c)[1]) == Some(c)
  {
    var cp := c as int;
    var b0, b1 := 0xC0 + cp / 64, 0x80 + cp % 64;
    assert (b0 - 0xC0) * 64 + (b1 - 0x80) == cp;
  }

  lemma DecodeThreeEncodeChar(c: char)
    requires 0x800 <= c as int < 0x10000
    ensures |EncodeChar(c)| == 3
    ensures 0xE0 <= EncodeChar(c)[0] <= 0xEF
    ensures DecodeThree(EncodeChar(c)[0], EncodeChar(c)[1], EncodeChar(c)[2]) == Some(c)
  {
    var cp := c as int;
    var x, y, z := cp / 4096, (cp / 64) % 64, cp % 64;
    assert cp == x * 4096 + y * 64 + z;
  }

  lemma DecodeFourEncodeChar(c: char)
    requires 0x10000 <= c as int
    ensures |EncodeChar(c)| == 4
    ensures 0xF0 <= EncodeChar(c)[0] <= 0xF4
    ensures DecodeFour(EncodeChar(c)[0], EncodeChar(c)[1], EncodeChar(c)[2], EncodeChar(c)[3]) == Some(c)
  {
    var cp := c as int;
    var w, x, y, z := cp / 262144, (cp / 4096) % 64, (cp / 64) % 64, cp % 64;
    assert cp / 64 == (cp / 4096) * 64 + y;
    assert cp / 4096 == w * 64 + x;
    assert cp == w * 262144 + x * 4096 + y * 64 + z;
    assert w <= 4;
    assert EncodeChar(c) == [0xF0 + w, 0x80 + x, 0x80 + y, 0x80 + z];
  }

  /** The encoding of one character is read back as that character. */
  lemma DecodeFirstEncodeChar(c: char, rest: seq<Byte>)
    ensures DecodeFirst(EncodeChar(c) + rest) == Some((c, |EncodeChar(c)|))
  {
    var cp := c as int;
    var e := EncodeChar(c);
    var b := e + rest;
    assert b[0] == e[0];
    if cp < 0x80 {
    } else if cp < 0x800 {
      DecodeTwoEncodeChar(c);
      assert b[1] == e[1];
    } else if cp < 0x10000 {
      DecodeThreeEncodeChar(c);
      assert b[1] == e[1] && b[2] == e[2];
    } else {
      DecodeFourEncodeChar(c);
      assert b[1] == e[1] && b[2] == e[2] && b[3] == e[3];
    }
  }

  /** Decoding the encoding of a string gives back the string. */
  lemma {:induction false} DecodeEncode(s: string)
    ensures Decode(Encode(s)) == Some(s)
  {
    if |s| > 0 {
      var e := EncodeChar(s[0]);
      var rest := Encode(s[1..]);
      assert Encode(s) == e + rest;
      DecodeFirstEncodeChar(s[0], rest);
      assert (e + rest)[|e|..] == rest;
      DecodeEncode(s[1..]);
      assert [s[0]] + s[1..] == s;
    }
  }

  /** Different strings have different encodings. */
  lemma EncodeInjective(s: string, t: string)
    requires Encode(s) == Encode(t)
    ensures s == t
  {
    DecodeEncode(s);
    DecodeEncode(t);
  }

  /** A lone continuation octet is not UTF-8. */
  lemma StrayContinuationRejected(b: Byte, rest: seq<Byte>)
    requires IsContinuation(b)
    ensures Decode([b] + rest).None?
  {
  }
}
