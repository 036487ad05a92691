/** The base 64 encoding of section 4 of RFC 4648 (alphabet `A-Z a-z 0-9 + /`,
    padding `=`), decoded strictly: the input is whole four-character groups,
    only the last group may carry padding, and any other character is an
    error. */
module Base64 {
  import opened Wrappers
  import opened Bytes

  /** A six-bit group, the value one base 64 character stands for. */
  type Sextet = x: int | 0 <= x < 64

  /** The character of the base 64 alphabet (Table 1 of RFC 4648) for `v`. */
  function Symbol(v: Sextet): (c: char)
    ensures c != '=' && c != ' '
  {
    if v < 26 then ('A' as int + v) as char
    else if v < 52 then ('a' as int + (v - 26)) as char
    else if v < 62 then ('0' as int + (v - 52)) as char
    else if v == 62 then '+'
    else '/'
  }

  /** The value of an alphabet character; `None` for anything else, the pad
      character included. */
  function SextetOf(c: char): (r: Option<Sextet>)
    ensures r.Some? ==> c != '=' && c != ' '
    ensures r.Some? ==> Symbol(r.value) == c
  {
    if 'A' <= c <= 'Z' then Some(c as int - 'A' as int)
    else if 'a' <= c <= 'z' then Some(c as int - 'a' as int + 26)
    else if '0' <= c <= '9' then Some(c as int - '0' as int + 52)
    else if c == '+' then Some(62)
    else if c == '/' then Some(63)
    else None
  }

  /** The value of the symbol of `v` is `v`. */
  lemma SextetOfSymbol(v: Sextet)
    ensures SextetOf(Symbol(v)) == Some(v)
  {
  }

  /** Every alphabet character is the symbol of its value. */
  lemma SymbolOfSextet(c: char)
    requires SextetOf(c).Some?
    ensures Symbol(SextetOf(c).value) == c
  {
  }

  // Three octets become four symbols: the 24 bits read as four sextets.

  function EncodeGroup(b0: Byte, b1: Byte, b2: Byte): string
  {
    [Symbol(b0 / 4), Symbol((b0 % 4) * 16 + b1 / 16), Symbol((b1 % 16) * 4 + b2 / 64), Symbol(b2 % 64)]
  }

  /** A final quantum of one octet: two symbols and two pad characters. */
  function EncodeOne(b0: Byte): string
  {
    EncodeGroup(b0, 0, 0)[..2] + "=="
  }

  /** A final quantum of two octets: three symbols and one pad character. */
  function EncodeTwo(b0: Byte, b1: Byte): string
  {
    EncodeGroup(b0, b1, 0)[..3] + "="
  }

  /** The canonical, padded encoding of `b`. */
  function Encode(b: seq<Byte>): (s: string)
    ensures |s| == 4 * ((|b| + 2) / 3)
    ensures ' ' !in s
    decreases |b|
  {
    if |b| == 0 then ""
    else if |b| == 1 then EncodeOne(b[0])
    else if |b| == 2 then EncodeTwo(b[0], b[1])
    else EncodeGroup(b[0], b[1], b[2]) + Encode(b[3..])
  }

  /** The three octets four sextets stand for. */
  function Octets(v0: Sextet, v1: Sextet, v2: Sextet, v3: Sextet): seq<Byte>
  {
    [v0 * 4 + v1 / 16, (v1 % 16) * 16 + v2 / 4, (v2 % 4) * 64 + v3]
  }

  /** A group of four alphabet characters, no padding. */
  function DecodeGroup(q: string): (r: Option<seq<Byte>>)
    requires |q| == 4
    ensures r.Some? <==> forall i :: 0 <= i < 4 ==> SextetOf(q[i]).Some?
    ensures r.Some? ==> |r.value| == 3
  {
    match (SextetOf(q[0]), SextetOf(q[1]), SextetOf(q[2]), SextetOf(q[3]))
    case (Some(v0), Some(v1), Some(v2), Some(v3)) => Some(Octets(v0, v1, v2, v3))
    case _ => None
  }

  /** The last group of the input, which may end in one or two pad characters.
      The pad characters stand for zero bits, and, as in Python's decoder,
      the bits they leave over are dropped without being checked. */
  function DecodeLastGroup(q: string): (r: Option<seq<Byte>>)
    requires |q| == 4
    ensures r.Some? && q[2] == '=' && q[3] == '=' ==> |r.value| == 1
    ensures r.Some? && q[2] != '=' && q[3] == '=' ==> |r.value| == 2
    ensures r.Some? && q[3] != '=' ==> |r.value| == 3
    ensures r.Some? ==> forall i :: 0 <= i < 2 ==> SextetOf(q[i]).Some?
  {
    if q[2] == '=' && q[3] == '=' then
      match DecodeGroup(q[..2] + "AA")
      case Some(o) => Some(o[..1])
      case None => None
    else if q[3] == '=' then
      match DecodeGroup(q[..3] + "A")
      case Some(o) => Some(o[..2])
      case None => None
    else DecodeGroup(q)
  }

  /** Strict decoding: `None` for a length that is not a multiple of four,
      a character outside the alphabet, or padding anywhere but at the end. */
  function Decode(s: string): (r: Option<seq<Byte>>)
    ensures |s| % 4 != 0 ==> r.None?
    decreases |s|
  {
    if |s| == 0 then Some([])
    else if |s| < 4 then None
    else if |s| == 4 then DecodeLastGroup(s)
    else
      assert |s[4..]| % 4 == |s| % 4;
      match DecodeGroup(s[..4])
      case None => None
      case Some(h) =>
        match Decode(s[4..])
        case None => None
        case Some(t) => Some(h + t)
  }

  // The arithmetic behind the round trip: the sextets of an octet pair
  // recombine into the same octets.

  lemma HighBits(b0: Byte, b1: Byte)
    ensures (b0 / 4) * 4 + ((b0 % 4) * 16 + b1 / 16) / 16 == b0
    ensures ((b0 % 4) * 16 + b1 / 16) % 16 == b1 / 16
  {
    var v1 := (b0 % 4) * 16 + b1 / 16;
    assert v1 / 16 == b0 % 4;
  }

  lemma MiddleBits(b1: Byte, b2: Byte)
    ensures (b1 / 16) * 16 + ((b1 % 16) * 4 + b2 / 64) / 4 == b1
    ensures ((b1 % 16) * 4 + b2 / 64) % 4 == b2 / 64
  {
    var v2 := (b1 % 16) * 4 + b2 / 64;
    assert v2 / 4 == b1 % 16;
  }

  lemma GroupRoundTrip(b0: Byte, b1: Byte, b2: Byte)
    ensures DecodeGroup(EncodeGroup(b0, b1, b2)) == Some([b0, b1, b2])
  {
    var v0, v1, v2, v3 := b0 / 4, (b0 % 4) * 16 + b1 / 16, (b1 % 16) * 4 + b2 / 64, b2 % 64;
    var q := EncodeGroup(b0, b1, b2);
    assert q == [Symbol(v0), Symbol(v1), Symbol(v2), Symbol(v3)];
    SextetOfSymbol(v0);
    SextetOfSymbol(v1);
    SextetOfSymbol(v2);
    SextetOfSymbol(v3);
    HighBits(b0, b1);
    MiddleBits(b1, b2);
    assert Octets(v0, v1, v2, v3) == [b0, b1, b2];
  }

  lemma OneRoundTrip(b0: Byte)
    ensures DecodeLastGroup(EncodeOne(b0)) == Some([b0])
  {
    var g := EncodeGroup(b0, 0, 0);
    var q := EncodeOne(b0);
    assert q[2] == '=' && q[3] == '=';
    assert q[..2] + "AA" == g;
    GroupRoundTrip(b0, 0, 0);
    assert DecodeGroup(q[..2] + "AA") == Some([b0, 0, 0]);
    assert [b0, 0, 0][..1] == [b0];
  }

  lemma TwoRoundTrip(b0: Byte, b1: Byte)
    ensures DecodeLastGroup(EncodeTwo(b0, b1)) == Some([b0, b1])
  {
    var g := EncodeGroup(b0, b1, 0);
    var q := EncodeTwo(b0, b1);
    assert q[2] == g[2] != '=' && q[3] == '=';
    assert q[..3] + "A" == g;
    GroupRoundTrip(b0, b1, 0);
    assert DecodeGroup(q[..3] + "A") == Some([b0, b1, 0]);
    assert [b0, b1, 0][..2] == [b0, b1];
  }

  /** A group in front of a non-empty rest is decoded on its own. */
  lemma DecodeCons(g: string, t: string, h: seq<Byte>, rest: seq<Byte>)
    requires |g| == 4 && |t| > 0
    requires DecodeGroup(g) == Some(h) && Decode(t) == Some(rest)
    ensures Decode(g + t) == Some(h + rest)
  {
    assert (g + t)[..4] == g;
    assert (g + t)[4..] == t;
  }

  /** Decoding the canonical encoding gives back the octets. */
  lemma {:induction false} DecodeEncode(b: seq<Byte>)
    ensures Decode(Encode(b)) == Some(b)
    decreases |b|
  {
    if |b| == 1 {
      DecodeEncodeOne(b);
    } else if |b| == 2 {
      DecodeEncodeTwo(b);
    } else if |b| == 3 {
      DecodeEncodeGroup(b);
    } else if |b| > 3 {
      DecodeEncode(b[3..]);
      DecodeEncodeStep(b[0], b[1], b[2], b[3..]);
      assert [b[0], b[1], b[2]] + b[3..] == b;
    }
  }

  lemma DecodeEncodeOne(b: seq<Byte>)
    requires |b| == 1
    ensures Decode(Encode(b)) == Some(b)
  {
    assert Encode(b) == EncodeOne(b[0]);
    OneRoundTrip(b[0]);
    assert b == [b[0]];
  }

  lemma DecodeEncodeTwo(b: seq<Byte>)
    requires |b| == 2
    ensures Decode(Encode(b)) == Some(b)
  {
    assert Encode(b) == EncodeTwo(b[0], b[1]);
    TwoRoundTrip(b[0], b[1]);
    assert b == [b[0], b[1]];
  }

  lemma DecodeEncodeGroup(b: seq<Byte>)
    requires |b| == 3
    ensures Decode(Encode(b)) == Some(b)
  {
    var g := EncodeGroup(b[0], b[1], b[2]);
    assert Encode(b[3..]) == "";
    assert Encode(b) == g;
    GroupRoundTrip(b[0], b[1], b[2]);
    assert b == [b[0], b[1], b[2]];
  }

  /** One step of the round trip: a whole group in front of a non-empty rest
      that already round-trips. */
  lemma DecodeEncodeStep(b0: Byte, b1: Byte, b2: Byte, rest: seq<Byte>)
    requires |rest| > 0
    requires Decode(Encode(rest)) == Some(rest)
    ensures Decode(Encode([b0, b1, b2] + rest)) == Some([b0, b1, b2] + rest)
  {
    var g := EncodeGroup(b0, b1, b2);
    var tail := Encode(rest);
    EncodeCons(b0, b1, b2, rest);
    GroupRoundTrip(b0, b1, b2);
    DecodeCons(g, tail, [b0, b1, b2], rest);
  }

  /** A group in front of a non-empty rest is encoded on its own. */
  lemma EncodeCons(b0: Byte, b1: Byte, b2: Byte, rest: seq<Byte>)
    requires |rest| > 0
    ensures Encode([b0, b1, b2] + rest) == EncodeGroup(b0, b1, b2) + Encode(rest)
  {
    var b := [b0, b1, b2] + rest;
    assert b[3..] == rest;
    assert b[0] == b0 && b[1] == b1 && b[2] == b2;
  }
}
