/**
 * Strict UTF-8, as `bytes.decode('utf-8')` applies it to Vorbis comment
 * strings: exactly the well-formed byte sequences of RFC 3629 section 4
 * (no overlong forms, no surrogates, nothing above U+10FFFF) decode, and
 * anything else is an error.
 */
module Utf8 {
  import opened Errors
  import opened Bytes

  /** A Unicode scalar value: a code point that is not a surrogate. */
  type Scalar = c: int | 0 <= c < 0xD800 || 0xE000 <= c < 0x11_0000

  /** Decoded text, as a Python `str`: a sequence of scalar values. */
  type Text = seq<Scalar>

  predicate IsContinuation(b: byte) {
    0x80 <= b < 0xC0
  }

  /** The UTF-8 encoding of one scalar value (RFC 3629 section 3). */
  function EncodeScalar(c: Scalar): (s: seq<byte>)
    ensures 1 <= |s| <= 4
    ensures forall i | 1 <= i < |s| :: IsContinuation(s[i])
  {
    if c < 0x80 then [c as byte]
    else if c < 0x800 then
      [(0xC0 + c / 0x40) as byte, (0x80 + c % 0x40) as byte]
    else if c < 0x1_0000 then
      [(0xE0 + c / 0x1000) as byte, (0x80 + c / 0x40 % 0x40) as byte, (0x80 + c % 0x40) as byte]
    else
      [(0xF0 + c / 0x4_0000) as byte, (0x80 + c / 0x1000 % 0x40) as byte,
       (0x80 + c / 0x40 % 0x40) as byte, (0x80 + c % 0x40) as byte]
  }

  function Encode(t: Text): seq<byte> {
    if t == [] then [] else EncodeScalar(t[0]) + Encode(t[1..])
  }

  /**
   * The scalar value encoded at offset `i` of `s` and the number of bytes it
   * takes, or None when no well-formed sequence starts there.
   */
  function DecodeFirst(s: seq<byte>, i: nat): (r: Option<(Scalar, nat)>)
    requires i < |s|
    ensures r.Some? ==> 1 <= r.value.1 <= |s| - i
  {
    var b0 := s[i] as int;
    if b0 < 0x80 then Some((b0, 1))
    else if 0xC2 <= b0 < 0xE0 then
      if i + 2 <= |s| && IsContinuation(s[i + 1]) then
        Some(((b0 - 0xC0) * 0x40 + (s[i + 1] as int - 0x80), 2))
      else None
    else if 0xE0 <= b0 < 0xF0 then
      var lo := if b0 == 0xE0 then 0xA0 else 0x80;
      var hi := if b0 == 0xED then 0xA0 else 0xC0;
      if i + 3 <= |s| && lo <= s[i + 1] as int < hi && IsContinuation(s[i + 2]) then
        Some(((b0 - 0xE0) * 0x1000 + (s[i + 1] as int - 0x80) * 0x40 + (s[i + 2] as int - 0x80), 3))
      else None
    else if 0xF0 <= b0 < 0xF5 then
      var lo := if b0 == 0xF0 then 0x90 else 0x80;
      var hi := if b0 == 0xF4 then 0x90 else 0xC0;
      if i + 4 <= |s| && lo <= s[i + 1] as int < hi && IsContinuation(s[i + 2]) && IsContinuation(s[i + 3]) then
        Some(((b0 - 0xF0) * 0x4_0000 + (s[i + 1] as int - 0x80) * 0x1000
              + (s[i + 2] as int - 0x80) * 0x40 + (s[i + 3] as int - 0x80), 4))
      else None
    else None
  }

  /** What `DecodeFirst` accepts is exactly the encoding of the scalar it returns. */
  lemma {:induction false} DecodeFirstIsEncoding(s: seq<byte>, i: nat)
    requires i < |s|
    ensures DecodeFirst(s, i).Some? ==>
      EncodeScalar(DecodeFirst(s, i).value.0) == s[i..i + DecodeFirst(s, i).value.1]
  {
    if DecodeFirst(s, i).Some? {
      var b0 := s[i];
      if b0 < 0x80 {
        assert s[i..i + 1] == [s[i]];
      } else if b0 < 0xE0 {
        TwoByteIsEncoding(s, i);
      } else if b0 < 0xF0 {
        ThreeByteIsEncoding(s, i);
      } else {
        FourByteIsEncoding(s, i);
      }
    }
  }

  lemma {:induction false} TwoByteIsEncoding(s: seq<byte>, i: nat)
    requires i < |s| && 0x80 <= s[i] < 0xE0 && DecodeFirst(s, i).Some?
    ensures DecodeFirst(s, i).value.1 == 2 && EncodeScalar(DecodeFirst(s, i).value.0) == s[i..i + 2]
  {
    TwoByteForm(s[i] as int, s[i + 1] as int);
    assert s[i..i + 2] == [s[i], s[i + 1]];
  }

  lemma {:induction false} ThreeByteIsEncoding(s: seq<byte>, i: nat)
    requires i < |s| && 0xE0 <= s[i] < 0xF0 && DecodeFirst(s, i).Some?
    ensures DecodeFirst(s, i).value.1 == 3 && EncodeScalar(DecodeFirst(s, i).value.0) == s[i..i + 3]
  {
    ThreeByteForm(s[i] as int, s[i + 1] as int, s[i + 2] as int);
    assert s[i..i + 3] == [s[i], s[i + 1], s[i + 2]];
  }

  lemma {:induction false} FourByteIsEncoding(s: seq<byte>, i: nat)
    requires i < |s| && 0xF0 <= s[i] && DecodeFirst(s, i).Some?
    ensures DecodeFirst(s, i).value.1 == 4 && EncodeScalar(DecodeFirst(s, i).value.0) == s[i..i + 4]
  {
    FourByteForm(s[i] as int, s[i + 1] as int, s[i + 2] as int, s[i + 3] as int);
    assert s[i..i + 4] == [s[i], s[i + 1], s[i + 2], s[i + 3]];
  }

  /** The text `s` encodes from offset `i` on, or None when that part is not well-formed UTF-8. */
  function DecodeFrom(s: seq<byte>, i: nat): (r: Option<Text>)
    decreases |s| - i
  {
    if i >= |s| then Some([])
    else match DecodeFirst(s, i)
      case None => None
      case Some((c, k)) =>
        match DecodeFrom(s, i + k)
        case None => None
        case Some(rest) => Some([c] + rest)
  }

  /** `bytes.decode('utf-8')`: the text `s` encodes, or None when `s` is not well-formed UTF-8. */
  function Decode(s: seq<byte>): (r: Option<Text>)
    ensures r.Some? ==> Encode(r.value) == s
  {
    EncodeOfDecodeFrom(s, 0);
    assert s[0..] == s;
    DecodeFrom(s, 0)
  }

  /** Whatever decodes from offset `i` is the encoding of the text it decodes to. */
  lemma {:induction false} EncodeOfDecodeFrom(s: seq<byte>, i: nat)
    requires i <= |s|
    ensures DecodeFrom(s, i).Some? ==> Encode(DecodeFrom(s, i).value) == s[i..]
    decreases |s| - i
  {
    if i < |s| && DecodeFrom(s, i).Some? {
      var first := DecodeFirst(s, i);
      var c, k := first.value.0, first.value.1;
      DecodeFirstIsEncoding(s, i);
      EncodeOfDecodeFrom(s, i + k);
      EncodePrepend(s, i, k, c, DecodeFrom(s, i + k).value);
    }
  }

  /** Encoding one more scalar in front: its bytes, then the rest's. */
  lemma {:induction false} EncodePrepend(s: seq<byte>, i: nat, k: nat, c: Scalar, rest: Text)
    requires i + k <= |s| && EncodeScalar(c) == s[i..i + k] && Encode(rest) == s[i + k..]
    ensures Encode([c] + rest) == s[i..]
  {
    var t := [c] + rest;
    assert t[0] == c && t[1..] == rest;
    assert s[i..i + k] + s[i + k..] == s[i..];
  }

  // Arithmetic of the multi-byte forms: the value a well-formed sequence
  // carries lies in the range its length is for, and the encoder's shifts and
  // masks give the bytes back.

  lemma {:induction false} TwoByteForm(b0: int, b1: int)
    requires 0xC2 <= b0 < 0xE0 && 0x80 <= b1 < 0xC0
    ensures var c := (b0 - 0xC0) * 0x40 + (b1 - 0x80);
      0x80 <= c < 0x800 && 0xC0 + c / 0x40 == b0 && 0x80 + c % 0x40 == b1
  {
  }

  lemma {:induction false} ThreeByteForm(b0: int, b1: int, b2: int)
    requires 0xE0 <= b0 < 0xF0 && 0x80 <= b1 < 0xC0 && 0x80 <= b2 < 0xC0
    requires b0 == 0xE0 ==> 0xA0 <= b1
    requires b0 == 0xED ==> b1 < 0xA0
    ensures var c := (b0 - 0xE0) * 0x1000 + (b1 - 0x80) * 0x40 + (b2 - 0x80);
      0x800 <= c < 0x1_0000 && (c < 0xD800 || 0xE000 <= c)
      && 0xE0 + c / 0x1000 == b0 && 0x80 + c / 0x40 % 0x40 == b1 && 0x80 + c % 0x40 == b2
  {
    var c := (b0 - 0xE0) * 0x1000 + (b1 - 0x80) * 0x40 + (b2 - 0x80);
    assert c / 0x40 == (b0 - 0xE0) * 0x40 + (b1 - 0x80);
  }

  lemma {:induction false} FourByteForm(b0: int, b1: int, b2: int, b3: int)
    requires 0xF0 <= b0 < 0xF5 && 0x80 <= b1 < 0xC0 && 0x80 <= b2 < 0xC0 && 0x80 <= b3 < 0xC0
    requires b0 == 0xF0 ==> 0x90 <= b1
    requires b0 == 0xF4 ==> b1 < 0x90
    ensures var c := (b0 - 0xF0) * 0x4_0000 + (b1 - 0x80) * 0x1000 + (b2 - 0x80) * 0x40 + (b3 - 0x80);
      0x1_0000 <= c < 0x11_0000
      && 0xF0 + c / 0x4_0000 == b0 && 0x80 + c / 0x1000 % 0x40 == b1
      && 0x80 + c / 0x40 % 0x40 == b2 && 0x80 + c % 0x40 == b3
  {
    var c := (b0 - 0xF0) * 0x4_0000 + (b1 - 0x80) * 0x1000 + (b2 - 0x80) * 0x40 + (b3 - 0x80);
    assert c / 0x40 == (b0 - 0xF0) * 0x1000 + (b1 - 0x80) * 0x40 + (b2 - 0x80);
    assert c / 0x1000 == (b0 - 0xF0) * 0x40 + (b1 - 0x80);
  }

  lemma {:induction false} TwoByteValue(c: int)
    requires 0x80 <= c < 0x800
    ensures 0xC2 <= 0xC0 + c / 0x40 < 0xE0 && (c / 0x40) * 0x40 + c % 0x40 == c
  {
  }

  lemma {:induction false} ThreeByteValue(c: int)
    requires 0x800 <= c < 0x1_0000
    ensures var b0, b1 := 0xE0 + c / 0x1000, 0x80 + c / 0x40 % 0x40;
      0xE0 <= b0 < 0xF0 && (b0 == 0xE0 ==> 0xA0 <= b1) && (b0 == 0xED && c < 0xD800 ==> b1 < 0xA0)
      && (b0 - 0xE0) * 0x1000 + (b1 - 0x80) * 0x40 + c % 0x40 == c
  {
    assert c / 0x40 == (c / 0x1000) * 0x40 + c / 0x40 % 0x40;
  }

  lemma {:induction false} FourByteValue(c: int)
    requires 0x1_0000 <= c < 0x11_0000
    ensures var b0, b1 := 0xF0 + c / 0x4_0000, 0x80 + c / 0x1000 % 0x40;
      0xF0 <= b0 < 0xF5 && (b0 == 0xF0 ==> 0x90 <= b1) && (b0 == 0xF4 ==> b1 < 0x90)
      && (b0 - 0xF0) * 0x4_0000 + (b1 - 0x80) * 0x1000 + (c / 0x40 % 0x40) * 0x40 + c % 0x40 == c
  {
    assert c / 0x40 == (c / 0x1000) * 0x40 + c / 0x40 % 0x40;
    assert c / 0x1000 == (c / 0x4_0000) * 0x40 + c / 0x1000 % 0x40;
  }

  /** The encoding of a scalar value decodes back to it, whatever precedes and follows it. */
  lemma {:induction false} DecodeFirstOfEncodeScalar(before: seq<byte>, c: Scalar, after: seq<byte>)
    ensures DecodeFirst(before + EncodeScalar(c) + after, |before|) == Some((c, |EncodeScalar(c)|))
  {
    var e := EncodeScalar(c);
    var s := before + e + after;
    var i := |before|;
    assert forall j | 0 <= j < |e| :: s[i + j] == e[j];
    if c < 0x80 {
    } else if c < 0x800 {
      DecodeFirstOfTwoBytes(s, i, c);
    } else if c < 0x1_0000 {
      DecodeFirstOfThreeBytes(s, i, c);
    } else {
      DecodeFirstOfFourBytes(s, i, c);
    }
  }

  lemma {:induction false} DecodeFirstOfTwoBytes(s: seq<byte>, i: nat, c: Scalar)
    requires 0x80 <= c < 0x800 && i + 2 <= |s| && s[i..i + 2] == EncodeScalar(c)
    ensures DecodeFirst(s, i) == Some((c, 2))
  {
    assert s[i] == s[i..i + 2][0] && s[i + 1] == s[i..i + 2][1];
    TwoByteValue(c);
  }

  lemma {:induction false} DecodeFirstOfThreeBytes(s: seq<byte>, i: nat, c: Scalar)
    requires 0x800 <= c < 0x1_0000 && i + 3 <= |s| && s[i..i + 3] == EncodeScalar(c)
    ensures DecodeFirst(s, i) == Some((c, 3))
  {
    assert s[i] == s[i..i + 3][0] && s[i + 1] == s[i..i + 3][1] && s[i + 2] == s[i..i + 3][2];
    ThreeByteValue(c);
  }

  lemma {:induction false} DecodeFirstOfFourBytes(s: seq<byte>, i: nat, c: Scalar)
    requires 0x1_0000 <= c && i + 4 <= |s| && s[i..i + 4] == EncodeScalar(c)
    ensures DecodeFirst(s, i) == Some((c, 4))
  {
    var e := s[i..i + 4];
    assert s[i] == e[0] && s[i + 1] == e[1] && s[i + 2] == e[2] && s[i + 3] == e[3];
    FourByteValue(c);
  }

  /** An encoded text decodes back to itself wherever it sits in the bytes. */
  lemma {:induction false} DecodeFromOfEncode(before: seq<byte>, t: Text)
    ensures DecodeFrom(before + Encode(t), |before|) == Some(t)
    decreases |t|
  {
    var s := before + Encode(t);
    if t != [] {
      var e := EncodeScalar(t[0]);
      var rest := Encode(t[1..]);
      assert s == before + e + rest;
      DecodeFirstOfEncodeScalar(before, t[0], rest);
      DecodeFromOfEncode(before + e, t[1..]);
      assert (before + e) + rest == s;
      assert [t[0]] + t[1..] == t;
    }
  }

  /** Every encoded text decodes back to itself. */
  lemma {:induction false} DecodeOfEncode(t: Text)
    ensures Decode(Encode(t)) == Some(t)
  {
    DecodeFromOfEncode([], t);
    assert [] + Encode(t) == Encode(t);
  }

  /** Decoding succeeds with `t` exactly when `s` is the encoding of `t`. */
  lemma {:induction false} DecodeIsInverse(s: seq<byte>, t: Text)
    ensures Decode(s) == Some(t) <==> Encode(t) == s
  {
    if Encode(t) == s {
      DecodeOfEncode(t);
    }
  }
}
