/** UTF-8 as both sides use it: C# `Encoding.UTF8.GetBytes` turns the file name
    and the key into bytes, and Python's strict `bytes.decode('UTF-8')` turns the
    first bytes of an upload back into a name. Characters are Unicode scalar
    values, so every string has exactly one encoding. */
module Utf8 {
  import opened Base

  /** Continuation byte 10xxxxxx. */
  predicate IsContinuation(b: byte) {
    0x80 <= b < 0xC0
  }

  /** The one- to four-byte encoding of a scalar value (section 3.9 of the Unicode Standard). */
  function EncodeChar(c: char): (b: Bytes)
    ensures 1 <= |b| <= 4
    ensures |b| == 1 <==> (c as int) < 0x80
  {
    var n := c as int;
    var q1, r0 := n / 64, n % 64;
    var q2, r1 := q1 / 64, q1 % 64;
    var q3, r2 := q2 / 64, q2 % 64;
    if n < 0x80 then [n as byte]
    else if n < 0x800 then [(0xC0 + q1) as byte, (0x80 + r0) as byte]
    else if n < 0x10000 then [(0xE0 + q2) as byte, (0x80 + r1) as byte, (0x80 + r0) as byte]
    else [(0xF0 + q3) as byte, (0x80 + r2) as byte, (0x80 + r1) as byte, (0x80 + r0) as byte]
  }

  /** `Encoding.UTF8.GetBytes`: the encodings of the characters, in order. */
  function Encode(s: string): (b: Bytes)
    ensures |s| <= |b| <= 4 * |s|
  {
    if s == [] then [] else EncodeChar(s[0]) + Encode(s[1..])
  }

  /** The scalar value a well-formed byte sequence at the head of `b` encodes, and
      how many bytes it takes; None when `b` does not start with one (the
      well-formed sequences of Table 3-7 of the Unicode Standard: no overlong
      forms, no surrogates, nothing above U+10FFFF). */
  function DecodeFirst(b: Bytes): (r: Option<(char, nat)>)
    ensures r.Some? ==> 1 <= r.value.1 <= |b| && r.value.1 <= 4
  {
    if |b| == 0 then None
    else
      var b0 := b[0] as int;
      if b0 < 0x80 then Some((b0 as char, 1))
      else if 0xC2 <= b0 <= 0xDF then
        if |b| >= 2 && IsContinuation(b[1]) then
          Some((((b0 - 0xC0) * 64 + (b[1] as int - 0x80)) as char, 2))
        else None
      else if 0xE0 <= b0 <= 0xEF then
        var lo := if b0 == 0xE0 then 0xA0 else 0x80;
        var hi := if b0 == 0xED then 0x9F else 0xBF;
        if |b| >= 3 && lo <= b[1] as int <= hi && IsContinuation(b[2]) then
          Some((((b0 - 0xE0) * 4096 + (b[1] as int - 0x80) * 64 + (b[2] as int - 0x80)) as char, 3))
        else None
      else if 0xF0 <= b0 <= 0xF4 then
        var lo := if b0 == 0xF0 then 0x90 else 0x80;
        var hi := if b0 == 0xF4 then 0x8F else 0xBF;
        if |b| >= 4 && lo <= b[1] as int <= hi && IsContinuation(b[2]) && IsContinuation(b[3]) then
          Some((((b0 - 0xF0) * 262144 + (b[1] as int - 0x80) * 4096
                 + (b[2] as int - 0x80) * 64 + (b[3] as int - 0x80)) as char, 4))
        else None
      else None
  }

  /** Python's strict `decode('UTF-8')`: None (a `UnicodeDecodeError`) unless the
      whole of `b` is a sequence of well-formed encodings. */
  function Decode(b: Bytes): (r: Option<string>)
    ensures r.Some? ==> |r.value| <= |b| <= 4 * |r.value|
    decreases |b|
  {
    if b == [] then Some([])
    else
      match DecodeFirst(b)
      case None => None
      case Some((c, k)) =>
        match Decode(b[k..])
        case None => None
        case Some(s) => Some([c] + s)
  }

  lemma DivMod64(n: int, q: int, r: int)
    requires n == 64 * q + r && 0 <= r < 64
    ensures n / 64 == q && n % 64 == r
  {
  }

  lemma DecodeFirstOfTwo(c: char, rest: Bytes)
    requires 0x80 <= c as int < 0x800
    ensures DecodeFirst(EncodeChar(c) + rest) == Some((c, 2))
  {
    var n := c as int;
    var b := EncodeChar(c) + rest;
    assert b[0] as int == 0xC0 + n / 64 && b[1] as int == 0x80 + n % 64;
  }

  lemma DecodeFirstOfThree(c: char, rest: Bytes)
    requires 0x800 <= c as int < 0x10000
    ensures DecodeFirst(EncodeChar(c) + rest) == Some((c, 3))
  {
    var n := c as int;
    var q1, r0 := n / 64, n % 64;
    var q2, r1 := q1 / 64, q1 % 64;
    var b := EncodeChar(c) + rest;
    assert b[0] as int == 0xE0 + q2 && b[1] as int == 0x80 + r1 && b[2] as int == 0x80 + r0;
    assert n == q2 * 4096 + r1 * 64 + r0;
  }

  lemma DecodeFirstOfFour(c: char, rest: Bytes)
    requires 0x10000 <= c as int
    ensures DecodeFirst(EncodeChar(c) + rest) == Some((c, 4))
  {
    var n := c as int;
    var q1, r0 := n / 64, n % 64;
    var q2, r1 := q1 / 64, q1 % 64;
    var q3, r2 := q2 / 64, q2 % 64;
    var b := EncodeChar(c) + rest;
    assert b[0] as int == 0xF0 + q3 && b[1] as int == 0x80 + r2;
    assert b[2] as int == 0x80 + r1 && b[3] as int == 0x80 + r0;
    assert n == q3 * 262144 + r2 * 4096 + r1 * 64 + r0;
  }

  /** Decoding reads back the character an encoding was made from, whatever follows it. */
  lemma DecodeFirstOfEncoding(c: char, rest: Bytes)
    ensures DecodeFirst(EncodeChar(c) + rest) == Some((c, |EncodeChar(c)|))
  {
    var n := c as int;
    if n < 0x80 {
    } else if n < 0x800 {
      DecodeFirstOfTwo(c, rest);
    } else if n < 0x10000 {
      DecodeFirstOfThree(c, rest);
    } else {
      DecodeFirstOfFour(c, rest);
    }
  }

  lemma FourIsEncoding(b: Bytes)
    requires DecodeFirst(b).Some? && b[0] as int >= 0xF0
    ensures b[..4] == EncodeChar(DecodeFirst(b).value.0)
  {
    var c := DecodeFirst(b).value.0;
    var n, b0 := c as int, b[0] as int;
    var t1, t2, t3 := b[1] as int - 0x80, b[2] as int - 0x80, b[3] as int - 0x80;
    DivMod64(n, ((b0 - 0xF0) * 64 + t1) * 64 + t2, t3);
    DivMod64(n / 64, (b0 - 0xF0) * 64 + t1, t2);
    DivMod64(n / 64 / 64, b0 - 0xF0, t1);
  }

  /** Whatever `DecodeFirst` accepts is the encoding of the character it returns. */
  lemma DecodeFirstIsEncoding(b: Bytes)
    requires DecodeFirst(b).Some?
    ensures b[..DecodeFirst(b).value.1] == EncodeChar(DecodeFirst(b).value.0)
  {
    var (c, k) := DecodeFirst(b).value;
    var n := c as int;
    var b0 := b[0] as int;
    if b0 < 0x80 {
    } else if b0 <= 0xDF {
      var t1 := b[1] as int - 0x80;
      DivMod64(n, b0 - 0xC0, t1);
    } else if b0 <= 0xEF {
      var t1, t2 := b[1] as int - 0x80, b[2] as int - 0x80;
      DivMod64(n, (b0 - 0xE0) * 64 + t1, t2);
      DivMod64(n / 64, b0 - 0xE0, t1);
    } else {
      FourIsEncoding(b);
    }
  }

  lemma {:induction false} EncodeAppend(a: string, b: string)
    ensures Encode(a + b) == Encode(a) + Encode(b)
  {
    if a != [] {
      assert (a + b)[1..] == a[1..] + b;
      EncodeAppend(a[1..], b);
    } else {
      assert a + b == b;
    }
  }

  /** Decoding inverts encoding. */
  lemma {:induction false} DecodeEncode(s: string)
    ensures Decode(Encode(s)) == Some(s)
  {
    if s != [] {
      var e := EncodeChar(s[0]);
      DecodeFirstOfEncoding(s[0], Encode(s[1..]));
      assert (e + Encode(s[1..]))[|e|..] == Encode(s[1..]);
      DecodeEncode(s[1..]);
      assert [s[0]] + s[1..] == s;
    }
  }

  /** Decoding is strict: bytes it accepts are the encoding of what it returns,
      so no other byte sequence decodes to the same text. */
  lemma {:induction false} EncodeDecode(b: Bytes)
    requires Decode(b).Some?
    ensures Encode(Decode(b).value) == b
    decreases |b|
  {
    if b != [] {
      var c, k, rest := DecodeStep(b);
      EncodeDecode(b[k..]);
      EncodeCons(c, rest);
      assert b == b[..k] + b[k..];
    }
  }

  /** One step of `Decode`: the encoding of the first character, then the
      decoding of the rest. */
  lemma DecodeStep(b: Bytes) returns (c: char, k: nat, rest: string)
    requires b != [] && Decode(b).Some?
    ensures 1 <= k <= |b| && b[..k] == EncodeChar(c)
    ensures Decode(b[k..]) == Some(rest) && Decode(b).value == [c] + rest
  {
    c, k := DecodeFirst(b).value.0, DecodeFirst(b).value.1;
    rest := Decode(b[k..]).value;
    DecodeFirstIsEncoding(b);
  }

  /** One step of `Encode`. */
  lemma EncodeCons(c: char, rest: string)
    ensures Encode([c] + rest) == EncodeChar(c) + Encode(rest)
  {
    assert ([c] + rest)[1..] == rest;
  }

  /** Text below U+0080 encodes one byte per character, each byte the character's code. */
  lemma {:induction false} EncodeAscii(s: string)
    requires All(s, IsAscii)
    ensures |Encode(s)| == |s|
    ensures forall i :: 0 <= i < |s| ==> Encode(s)[i] as int == s[i] as int
  {
    if s != [] {
      EncodeAscii(s[1..]);
    }
  }
}
