/**
 * UTF-8, as `str.encode('utf-8')` and the strict `bytes.decode('utf-8')` do it.
 * A Dafny `char` is a Unicode scalar value, as is each element of a Python `str`
 * that can be encoded at all.
 */
module Utf8 {
  import opened Wrappers
  import opened Bytes

  predicate IsAsciiChar(c: char) { (c as int) < 0x80 }

  predicate IsAscii(s: string) { forall i :: 0 <= i < |s| ==> IsAsciiChar(s[i]) }

  /** The one to four bytes that encode one scalar value. */
  function EncodeChar(c: char): (r: Bytes)
    ensures 1 <= |r| <= 4
    ensures |r| == 1 <==> IsAsciiChar(c)
  {
    var n := c as int;
    if n < 0x80 then [n]
    else if n < 0x800 then [0xC0 + n / 0x40, 0x80 + n % 0x40]
    else if n < 0x1_0000 then [0xE0 + n / 0x1000, 0x80 + (n / 0x40) % 0x40, 0x80 + n % 0x40]
    else [0xF0 + n / 0x4_0000, 0x80 + (n / 0x1000) % 0x40, 0x80 + (n / 0x40) % 0x40, 0x80 + n % 0x40]
  }

  function Encode(s: string): (r: Bytes)
    ensures |r| >= |s|
  {
    if s == [] then [] else EncodeChar(s[0]) + Encode(s[1..])
  }

  predicate IsContinuation(b: byte) { 0x80 <= b < 0xC0 }

  /**
   * Decodes the scalar value at the start of a non-empty buffer and the number of
   * bytes it takes; None for an ill-formed sequence (a stray continuation byte, an
   * overlong form, a surrogate, a value beyond U+10FFFF, or a truncated sequence).
   */
  function DecodeFirst(b: Bytes): (r: Option<(char, nat)>)
    requires |b| > 0
    ensures r.Some? ==> 1 <= r.value.1 <= |b|
  {
    var b0 := b[0] as int;
    if b0 < 0x80 then Some((b0 as char, 1))
    else if 0xC2 <= b0 < 0xE0 then
      if |b| >= 2 && IsContinuation(b[1]) then
        Some((((b0 - 0xC0) * 0x40 + (b[1] as int - 0x80)) as char, 2))
      else None
    else if 0xE0 <= b0 < 0xF0 then
      if |b| >= 3 && IsContinuation(b[1]) && IsContinuation(b[2]) then
        var n := (b0 - 0xE0) * 0x1000 + (b[1] as int - 0x80) * 0x40 + (b[2] as int - 0x80);
        if n < 0x800 || 0xD800 <= n < 0xE000 then None else Some((n as char, 3))
      else None
    else if 0xF0 <= b0 < 0xF5 then
      if |b| >= 4 && IsContinuation(b[1]) && IsContinuation(b[2]) && IsContinuation(b[3]) then
        var n := (b0 - 0xF0) * 0x4_0000 + (b[1] as int - 0x80) * 0x1000 + (b[2] as int - 0x80) * 0x40 + (b[3] as int - 0x80);
        if n < 0x1_0000 || n >= 0x11_0000 then None else Some((n as char, 4))
      else None
    else None
  }

  /** Division by 2^6 from a quotient and a remainder in range. */
  lemma SplitSix(x: int, q: int, r: int)
    requires 0 <= r < 0x40 && x == q * 0x40 + r
    ensures x / 0x40 == q && x % 0x40 == r
  {
  }

  /** Every sequence `DecodeFirst` accepts is the encoding of the scalar value it returns. */
  lemma EncodeCharOfDecodeFirst(b: Bytes)
    requires |b| > 0 && DecodeFirst(b).Some?
    ensures EncodeChar(DecodeFirst(b).value.0) == b[..DecodeFirst(b).value.1]
  {
    var b0 := b[0] as int;
    if b0 < 0x80 {
      assert b[..1] == [b[0]];
    } else if b0 < 0xE0 {
      var n := (b0 - 0xC0) * 0x40 + (b[1] as int - 0x80);
      SplitSix(n, b0 - 0xC0, b[1] as int - 0x80);
      assert b[..2] == [b[0], b[1]];
    } else if b0 < 0xF0 {
      var n := (b0 - 0xE0) * 0x1000 + (b[1] as int - 0x80) * 0x40 + (b[2] as int - 0x80);
      var q := (b0 - 0xE0) * 0x40 + (b[1] as int - 0x80);
      SplitSix(n, q, b[2] as int - 0x80);
      SplitSix(q, b0 - 0xE0, b[1] as int - 0x80);
      assert n / 0x1000 == q / 0x40;
      assert b[..3] == [b[0], b[1], b[2]];
    } else {
      var n := (b0 - 0xF0) * 0x4_0000 + (b[1] as int - 0x80) * 0x1000 + (b[2] as int - 0x80) * 0x40 + (b[3] as int - 0x80);
      var q := (b0 - 0xF0) * 0x1000 + (b[1] as int - 0x80) * 0x40 + (b[2] as int - 0x80);
      var q2 := (b0 - 0xF0) * 0x40 + (b[1] as int - 0x80);
      SplitSix(n, q, b[3] as int - 0x80);
      SplitSix(q, q2, b[2] as int - 0x80);
      SplitSix(q2, b0 - 0xF0, b[1] as int - 0x80);
      assert n / 0x1000 == q2 && n / 0x4_0000 == q2 / 0x40;
      assert b[..4] == [b[0], b[1], b[2], b[3]];
    }
  }

  /**
   * The strict decoder: a string comes back exactly when the whole buffer is a sequence
   * of well-formed encodings.
   */
  function Decode(b: Bytes): (r: Option<string>)
    ensures r.Some? ==> |r.value| <= |b|
    decreases |b|
  {
    if b == [] then Some([])
    else
      var (c, k) :- DecodeFirst(b);
      var rest :- Decode(b[k..]);
      Some([c] + rest)
  }

  /** Whatever decodes is the encoding of the string it decodes to. */
  lemma {:induction false} EncodeDecode(b: Bytes)
    requires Decode(b).Some?
    ensures Encode(Decode(b).value) == b
    decreases |b|
  {
    if b != [] {
      var first := DecodeFirst(b).value;
      DecodeCons(b);
      EncodeCharOfDecodeFirst(b);
      EncodeDecode(b[first.1..]);
      EncodeJoin(b, first.1, first.0, Decode(b[first.1..]).value, Decode(b).value);
    }
  }

  /** A first character encoded as the first `k` bytes, and a rest encoded as the others. */
  lemma EncodeJoin(b: Bytes, k: nat, c: char, rest: string, s: string)
    requires k <= |b| && EncodeChar(c) == b[..k] && Encode(rest) == b[k..] && s == [c] + rest
    ensures Encode(s) == b
  {
    EncodeCons(c, rest);
    assert b == b[..k] + b[k..];
  }

  /** A non-empty buffer decodes as its first scalar value followed by the rest of the buffer. */
  lemma DecodeCons(b: Bytes)
    requires b != [] && Decode(b).Some?
    ensures DecodeFirst(b).Some? && Decode(b[DecodeFirst(b).value.1..]).Some?
    ensures Decode(b).value == [DecodeFirst(b).value.0] + Decode(b[DecodeFirst(b).value.1..]).value
  {
  }

  lemma EncodeCons(c: char, rest: string)
    ensures Encode([c] + rest) == EncodeChar(c) + Encode(rest)
  {
    assert ([c] + rest)[0] == c && ([c] + rest)[1..] == rest;
  }

  lemma DecodeFirstEncodeChar(c: char, tail: Bytes)
    ensures DecodeFirst(EncodeChar(c) + tail) == Some((c, |EncodeChar(c)|))
  {
    var n := c as int;
    if n < 0x80 {
    } else if n < 0x800 {
      DecodeTwoBytes(c, tail);
    } else if n < 0x1_0000 {
      DecodeThreeBytes(c, tail);
    } else {
      DecodeFourBytes(c, tail);
    }
  }

  lemma DecodeTwoBytes(c: char, tail: Bytes)
    requires 0x80 <= c as int < 0x800
    ensures DecodeFirst(EncodeChar(c) + tail) == Some((c, 2))
  {
    var n := c as int;
    var b := EncodeChar(c) + tail;
    assert b[0] == 0xC0 + n / 0x40 && b[1] == 0x80 + n % 0x40;
    assert (n / 0x40) * 0x40 + n % 0x40 == n;
  }

  lemma DecodeThreeBytes(c: char, tail: Bytes)
    requires 0x800 <= c as int < 0x1_0000
    ensures DecodeFirst(EncodeChar(c) + tail) == Some((c, 3))
  {
    var n := c as int;
    var b := EncodeChar(c) + tail;
    assert b[0] == 0xE0 + n / 0x1000;
    assert b[1] == 0x80 + (n / 0x40) % 0x40 && b[2] == 0x80 + n % 0x40;
    var q := n / 0x40;
    assert q / 0x40 == n / 0x1000;
    assert (q / 0x40) * 0x40 + q % 0x40 == q;
    assert q * 0x40 + n % 0x40 == n;
    assert (b[0] as int - 0xE0) * 0x1000 + (b[1] as int - 0x80) * 0x40 + (b[2] as int - 0x80) == n;
  }

  lemma DecodeFourBytes(c: char, tail: Bytes)
    requires 0x1_0000 <= c as int
    ensures DecodeFirst(EncodeChar(c) + tail) == Some((c, 4))
  {
    var n := c as int;
    var b := EncodeChar(c) + tail;
    assert b[0] == 0xF0 + n / 0x4_0000;
    assert b[1] == 0x80 + (n / 0x1000) % 0x40;
    assert b[2] == 0x80 + (n / 0x40) % 0x40 && b[3] == 0x80 + n % 0x40;
    var q := n / 0x40;
    var q2 := q / 0x40;
    assert q2 == n / 0x1000;
    assert q2 / 0x40 == n / 0x4_0000;
    assert (q2 / 0x40) * 0x40 + q2 % 0x40 == q2;
    assert q2 * 0x40 + q % 0x40 == q;
    assert q * 0x40 + n % 0x40 == n;
    assert (b[0] as int - 0xF0) * 0x4_0000 + (b[1] as int - 0x80) * 0x1000 + (b[2] as int - 0x80) * 0x40 + (b[3] as int - 0x80) == n;
  }

  /** Decoding what `Encode` produced gives back the string. */
  lemma {:induction false} DecodeEncode(s: string)
    ensures Decode(Encode(s)) == Some(s)
  {
    if s != [] {
      var e := EncodeChar(s[0]);
      var rest := Encode(s[1..]);
      assert Encode(s) == e + rest;
      DecodeFirstEncodeChar(s[0], rest);
      assert (e + rest)[|e|..] == rest;
      DecodeEncode(s[1..]);
      assert [s[0]] + s[1..] == s;
    }
  }

  /** The byte length of the encoding equals the character count exactly for ASCII strings. */
  lemma {:induction false} EncodedLengthIsCharCountIffAscii(s: string)
    ensures |Encode(s)| == |s| <==> IsAscii(s)
  {
    if s != [] {
      EncodedLengthIsCharCountIffAscii(s[1..]);
      assert IsAscii(s) <==> IsAsciiChar(s[0]) && IsAscii(s[1..]) by {
        if IsAsciiChar(s[0]) && IsAscii(s[1..]) {
          forall i | 0 <= i < |s| ensures IsAsciiChar(s[i]) {
            if i > 0 { assert s[i] == s[1..][i - 1]; }
          }
        }
      }
    }
  }
}
