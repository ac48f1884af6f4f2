/**
 * Standard Base64 with padding, the encoding of section 4 of RFC 4648
 * (Go's `base64.StdEncoding`), used to store the release data inside the
 * binary.
 *
 * Every three input bytes become four characters of the 64-character
 * alphabet; a final group of one or two bytes becomes two or three
 * characters followed by "==" or "=". The characters are kept as their
 * ASCII byte values, since the encoded text is appended to a binary.
 */
module Base64 {
  import opened Wrappers

  type Byte = b: int | 0 <= b < 256

  /** The padding character '='. */
  const Pad: Byte := '=' as int

  /** Table 1 of RFC 4648: the character for a 6-bit value. */
  function Digit(v: nat): (c: Byte)
    requires v < 64
    ensures c != Pad
  {
    if v < 26 then 'A' as int + v
    else if v < 52 then 'a' as int + (v - 26)
    else if v < 62 then '0' as int + (v - 52)
    else if v == 62 then '+' as int
    else '/' as int
  }

  /** The 6-bit value of an alphabet character; `None` for any other byte,
      the padding character included. */
  function SextetOf(c: Byte): (r: Option<nat>)
    ensures r.Some? ==> r.value < 64
    ensures c == Pad ==> r.None?
  {
    if 'A' as int <= c <= 'Z' as int then Some(c - 'A' as int)
    else if 'a' as int <= c <= 'z' as int then Some(c - 'a' as int + 26)
    else if '0' as int <= c <= '9' as int then Some(c - '0' as int + 52)
    else if c == '+' as int then Some(62)
    else if c == '/' as int then Some(63)
    else None
  }

  predicate InAlphabet(c: Byte) {
    SextetOf(c).Some?
  }

  /** The alphabet is a bijection between the values 0..63 and 64
      characters: reading a written value gives it back, and every alphabet
      character is the writing of its value. */
  lemma DigitBijection(v: nat, c: Byte)
    requires v < 64
    ensures SextetOf(Digit(v)) == Some(v)
    ensures SextetOf(c).Some? ==> Digit(SextetOf(c).value) == c
  {
  }

  // ---------------------------------------------------------------------
  // Encoding
  // ---------------------------------------------------------------------

  /** Three bytes as four characters, six bits each, high bits first. */
  function EncodeGroup(b0: Byte, b1: Byte, b2: Byte): seq<Byte> {
    [Digit(b0 / 4), Digit((b0 % 4) * 16 + b1 / 16), Digit((b1 % 16) * 4 + b2 / 64), Digit(b2 % 64)]
  }

  /** `StdEncoding.EncodeToString`. */
  function Encode(data: seq<Byte>): seq<Byte>
    decreases |data|
  {
    if |data| == 0 then []
    else if |data| == 1 then [Digit(data[0] / 4), Digit((data[0] % 4) * 16), Pad, Pad]
    else if |data| == 2 then
      [Digit(data[0] / 4), Digit((data[0] % 4) * 16 + data[1] / 16), Digit((data[1] % 16) * 4), Pad]
    else EncodeGroup(data[0], data[1], data[2]) + Encode(data[3..])
  }

  // ---------------------------------------------------------------------
  // Decoding
  // ---------------------------------------------------------------------

  /** One group of four characters. Padding is accepted only in the last
      group: "xx==" gives one byte, "xxx=" two. Bits below the last whole
      byte are ignored, as the non-strict decoder does. */
  function DecodeQuad(q: seq<Byte>, last: bool): Option<seq<Byte>>
    requires |q| == 4
  {
    var s0, s1 := SextetOf(q[0]), SextetOf(q[1]);
    if s0.None? || s1.None? then None
    else
      var v0, v1 := s0.value, s1.value;
      var b0 := v0 * 4 + v1 / 16;
      if q[2] == Pad then
        if q[3] == Pad && last then Some([b0]) else None
      else if SextetOf(q[2]).None? then None
      else
        var v2 := SextetOf(q[2]).value;
        var b1 := (v1 % 16) * 16 + v2 / 4;
        if q[3] == Pad then
          if last then Some([b0, b1]) else None
        else if SextetOf(q[3]).None? then None
        else Some([b0, b1, (v2 % 4) * 64 + SextetOf(q[3]).value])
  }

  /** `StdEncoding.DecodeString`: `None` for corrupt input. */
  function Decode(s: seq<Byte>): Option<seq<Byte>>
    decreases |s|
  {
    if |s| == 0 then Some([])
    else if |s| < 4 then None
    else
      match DecodeQuad(s[..4], |s| == 4)
      case None => None
      case Some(head) =>
        match Decode(s[4..])
        case None => None
        case Some(tail) => Some(head + tail)
  }

  // ---------------------------------------------------------------------
  // Properties
  // ---------------------------------------------------------------------

  /** Four characters for every started group of three bytes. */
  lemma {:induction false} EncodeLength(data: seq<Byte>)
    ensures |Encode(data)| == 4 * ((|data| + 2) / 3)
    decreases |data|
  {
    var n := |data|;
    if n >= 3 {
      EncodeLength(data[3..]);
      assert (n + 2) / 3 == (n - 3 + 2) / 3 + 1;
      assert |Encode(data)| == 4 + |Encode(data[3..])|;
    } else {
      assert (n + 2) / 3 == if n == 0 then 0 else 1;
    }
  }

  /** The output is alphabet characters followed by at most two padding
      characters. */
  lemma {:induction false} EncodeAlphabet(data: seq<Byte>)
    ensures var e := Encode(data);
      forall i :: 0 <= i < |e| ==> InAlphabet(e[i]) || (e[i] == Pad && i >= |e| - 2)
    decreases |data|
  {
    var e := Encode(data);
    if |data| >= 3 {
      EncodeAlphabet(data[3..]);
      EncodeLength(data[3..]);
      var g := EncodeGroup(data[0], data[1], data[2]);
      forall i | 0 <= i < |e| ensures InAlphabet(e[i]) || (e[i] == Pad && i >= |e| - 2) {
        if i < 4 {
          assert e[i] == g[i];
          DigitBijection(if i == 0 then data[0] / 4 else 0, 0);
        } else {
          assert e[i] == Encode(data[3..])[i - 4];
        }
      }
    } else {
      forall i | 0 <= i < |e| ensures InAlphabet(e[i]) || (e[i] == Pad && i >= |e| - 2) {
        if i < |data| + 1 {
          var v := if i == 0 then data[0] / 4 else if i == 1 then (data[0] % 4) * 16 + (if |data| == 2 then data[1] / 16 else 0)
                   else (data[1] % 16) * 4;
          DigitBijection(v, 0);
        }
      }
    }
  }

  /** Regrouping the 6-bit values of a group into bytes gives the bytes
      back. */
  lemma GroupArithmetic(b0: Byte, b1: Byte, b2: Byte)
    ensures var v0, v1, v2, v3 := b0 / 4, (b0 % 4) * 16 + b1 / 16, (b1 % 16) * 4 + b2 / 64, b2 % 64;
      && v0 * 4 + v1 / 16 == b0
      && (v1 % 16) * 16 + v2 / 4 == b1
      && (v2 % 4) * 64 + v3 == b2
  {
    var v1, v2 := (b0 % 4) * 16 + b1 / 16, (b1 % 16) * 4 + b2 / 64;
    assert v1 / 16 == b0 % 4 && v1 % 16 == b1 / 16;
    assert v2 / 4 == b1 % 16 && v2 % 4 == b2 / 64;
  }

  /** Four alphabet characters decode to the three bytes their values
      spell, high bits first. */
  lemma QuadOfDigits(v0: nat, v1: nat, v2: nat, v3: nat, last: bool)
    requires v0 < 64 && v1 < 64 && v2 < 64 && v3 < 64
    ensures v0 * 4 + v1 / 16 < 256 && (v1 % 16) * 16 + v2 / 4 < 256 && (v2 % 4) * 64 + v3 < 256
    ensures DecodeQuad([Digit(v0), Digit(v1), Digit(v2), Digit(v3)], last) ==
      Some([v0 * 4 + v1 / 16, (v1 % 16) * 16 + v2 / 4, (v2 % 4) * 64 + v3])
  {
    DigitBijection(v0, 0);
    DigitBijection(v1, 0);
    DigitBijection(v2, 0);
    DigitBijection(v3, 0);
  }

  /** Decoding the characters of one group gives its three bytes back. */
  lemma GroupRoundTrip(b0: Byte, b1: Byte, b2: Byte, last: bool)
    ensures DecodeQuad(EncodeGroup(b0, b1, b2), last) == Some([b0, b1, b2])
  {
    var v0, v1, v2, v3 := b0 / 4, (b0 % 4) * 16 + b1 / 16, (b1 % 16) * 4 + b2 / 64, b2 % 64;
    QuadOfDigits(v0, v1, v2, v3, last);
    GroupArithmetic(b0, b1, b2);
  }

  /** Decoding the padded final group gives its one or two bytes back. */
  lemma OneByteRoundTrip(b0: Byte)
    ensures DecodeQuad(Encode([b0]), true) == Some([b0])
  {
    var v0, v1 := b0 / 4, (b0 % 4) * 16;
    DigitBijection(v0, 0);
    DigitBijection(v1, 0);
    var q := Encode([b0]);
    assert q == [Digit(v0), Digit(v1), Pad, Pad];
    assert v0 * 4 + v1 / 16 == b0;
  }

  lemma TwoBytesRoundTrip(b0: Byte, b1: Byte)
    ensures DecodeQuad(Encode([b0, b1]), true) == Some([b0, b1])
  {
    var v0, v1, v2 := b0 / 4, (b0 % 4) * 16 + b1 / 16, (b1 % 16) * 4;
    DigitBijection(v0, 0);
    DigitBijection(v1, 0);
    DigitBijection(v2, 0);
    var q := Encode([b0, b1]);
    assert q == [Digit(v0), Digit(v1), Digit(v2), Pad];
    assert v0 * 4 + v1 / 16 == b0;
    assert (v1 % 16) * 16 + v2 / 4 == b1;
  }

  /** Decoding an encoding gives the original bytes. */
  lemma {:induction false} DecodeEncode(data: seq<Byte>)
    ensures Decode(Encode(data)) == Some(data)
    decreases |data|
  {
    var e := Encode(data);
    if 1 <= |data| <= 2 {
      if |data| == 1 {
        OneByteRoundTrip(data[0]);
        assert data == [data[0]];
      } else {
        TwoBytesRoundTrip(data[0], data[1]);
        assert data == [data[0], data[1]];
      }
      assert DecodeQuad(e[..4], true) == Some(data) by { assert e[..4] == e; }
      assert Decode(e[4..]) == Some([]) by { assert e[4..] == []; }
      assert data + [] == data;
    } else if |data| >= 3 {
      var rest := data[3..];
      DecodeEncode(rest);
      DecodeGroupThenRest(data[0], data[1], data[2], rest);
      assert data == [data[0], data[1], data[2]] + rest;
    }
  }

  /** One unfolding of the round trip: a full group, then the rest. */
  lemma DecodeGroupThenRest(b0: Byte, b1: Byte, b2: Byte, rest: seq<Byte>)
    requires Decode(Encode(rest)) == Some(rest)
    ensures Decode(Encode([b0, b1, b2] + rest)) == Some([b0, b1, b2] + rest)
  {
    var data := [b0, b1, b2] + rest;
    var e := Encode(data);
    assert data[3..] == rest;
    EncodeLength(rest);
    GroupRoundTrip(b0, b1, b2, |rest| == 0);
    assert e[..4] == EncodeGroup(b0, b1, b2);
    assert e[4..] == Encode(rest);
  }

  /** The test vectors of section 10 of RFC 4648 for "f", "fo" and "foo". */
  lemma TestVectors()
    ensures Encode(['f' as int]) == ['Z' as int, 'g' as int, Pad, Pad]
    ensures Encode(['f' as int, 'o' as int]) == ['Z' as int, 'm' as int, '8' as int, Pad]
    ensures Encode(['f' as int, 'o' as int, 'o' as int]) == ['Z' as int, 'm' as int, '9' as int, 'v' as int]
  {
    var foo: seq<Byte> := ['f' as int, 'o' as int, 'o' as int];
    assert foo[3..] == [];
  }
}
