/**
 * UTF-8, the codec behind Python's `str.encode()` and `bytes.decode()`.
 *
 * Decoding is strict, as Python's default error handler is: overlong forms,
 * encoded surrogates, code points above U+10FFFF, stray continuation bytes
 * and truncated sequences all make the whole decode fail.
 */
module Utf8 {
  import opened Wrappers
  import opened Wire

  predicate IsContinuation(b: byte)
  {
    0x80 <= b < 0xC0
  }

  /** The UTF-8 form of one Unicode scalar value. */
  function EncodeChar(c: char): (r: Bytes)
    ensures 1 <= |r| <= 4
    ensures (|r| == 1) == (c as int < 0x80)
    ensures |r| == 1 ==> r[0] as int == c as int
  {
    var n := c as int;
    if n < 0x80 then
      [n as byte]
    else if n < 0x800 then
      [(0xC0 + n / 64) as byte, (0x80 + n % 64) as byte]
    else if n < 0x10000 then
      [(0xE0 + n / 4096) as byte, (0x80 + n / 64 % 64) as byte, (0x80 + n % 64) as byte]
    else
      [(0xF0 + n / 262144) as byte, (0x80 + n / 4096 % 64) as byte,
       (0x80 + n / 64 % 64) as byte, (0x80 + n % 64) as byte]
  }

  /** `s.encode()`. */
  function Encode(s: string): (r: Bytes)
  {
    if s == [] then [] else EncodeChar(s[0]) + Encode(s[1..])
  }

  /** The first character of a non-empty byte string and how many bytes it takes. */
  function DecodeFirst(b: Bytes): (r: Option<(char, nat)>)
    requires b != []
    ensures r.Some? ==> 1 <= r.value.1 <= |b|
  {
    var b0 := b[0] as int;
    if b0 < 0x80 then
      Some((b0 as char, 1))
    else if 0xC2 <= b0 < 0xE0 then
      if |b| >= 2 && IsContinuation(b[1]) then
        Some((((b0 - 0xC0) * 64 + (b[1] as int - 0x80)) as char, 2))
      else None
    else if 0xE0 <= b0 < 0xF0 then
      var lo := if b0 == 0xE0 then 0xA0 else 0x80;
      var hi := if b0 == 0xED then 0xA0 else 0xC0;
      if |b| >= 3 && lo <= b[1] as int < hi && IsContinuation(b[2]) then
        var n := (b0 - 0xE0) * 4096 + (b[1] as int - 0x80) * 64 + (b[2] as int - 0x80);
        Some((n as char, 3))
      else None
    else if 0xF0 <= b0 < 0xF5 then
      var lo := if b0 == 0xF0 then 0x90 else 0x80;
      var hi := if b0 == 0xF4 then 0x90 else 0xC0;
      if |b| >= 4 && lo <= b[1] as int < hi && IsContinuation(b[2]) && IsContinuation(b[3]) then
        var n := (b0 - 0xF0) * 262144 + (b[1] as int - 0x80) * 4096
                 + (b[2] as int - 0x80) * 64 + (b[3] as int - 0x80);
        Some((n as char, 4))
      else None
    else None
  }

  /** `b.decode()`: None stands for a UnicodeDecodeError. */
  function Decode(b: Bytes): (r: Option<string>)
    decreases |b|
  {
    if b == [] then Some([])
    else
      match DecodeFirst(b)
      case None => None
      case Some((c, k)) =>
        match Decode(b[k..])
        case None => None
        case Some(s) => Some([c] + s)
  }

  /** Decoding the first character of an encoded character gives it back. */
  lemma DecodeFirstEncodeChar(c: char, rest: Bytes)
    ensures DecodeFirst(EncodeChar(c) + rest) == Some((c, |EncodeChar(c)|))
  {
    var n := c as int;
    if n < 0x80 {
    } else if n < 0x800 {
      DecodeTwo(c, rest);
    } else if n < 0x10000 {
      DecodeThree(c, rest);
    } else {
      DecodeFour(c, rest);
    }
  }

  lemma DecodeTwo(c: char, rest: Bytes)
    requires 0x80 <= c as int < 0x800
    ensures DecodeFirst(EncodeChar(c) + rest) == Some((c, 2))
  {
    var n := c as int;
    assert (n / 64) * 64 + n % 64 == n;
  }

  lemma DecodeThree(c: char, rest: Bytes)
    requires 0x800 <= c as int < 0x10000
    ensures DecodeFirst(EncodeChar(c) + rest) == Some((c, 3))
  {
    var n := c as int;
    assert (n / 4096) * 4096 + (n / 64 % 64) * 64 + n % 64 == n;
  }

  lemma DecodeFour(c: char, rest: Bytes)
    requires 0x10000 <= c as int
    ensures DecodeFirst(EncodeChar(c) + rest) == Some((c, 4))
  {
    var n := c as int;
    var q1, q2 := n / 64, n / 4096;
    assert n == q1 * 64 + n % 64;
    assert q1 == q2 * 64 + q1 % 64 && q1 % 64 == n / 64 % 64;
    assert q2 / 64 == n / 262144 && q2 == (n / 262144) * 64 + q2 % 64;
  }

  lemma {:induction false} EncodeAppend(s: string, t: string)
    ensures Encode(s + t) == Encode(s) + Encode(t)
  {
    if s != [] {
      assert (s + t)[1..] == s[1..] + t;
      EncodeAppend(s[1..], t);
    } else {
      assert s + t == t;
    }
  }

  /** Decoding undoes encoding, for every string. */
  lemma {:induction false} DecodeEncode(s: string)
    ensures Decode(Encode(s)) == Some(s)
  {
    if s != [] {
      var head := EncodeChar(s[0]);
      DecodeFirstEncodeChar(s[0], Encode(s[1..]));
      assert (head + Encode(s[1..]))[|head|..] == Encode(s[1..]);
      DecodeEncode(s[1..]);
      assert [s[0]] + s[1..] == s;
    }
  }

  /** A decoding step reads exactly the encoding of the character it yields. */
  lemma EncodeCharDecodeFirst(b: Bytes)
    requires b != [] && DecodeFirst(b).Some?
    ensures var (c, k) := DecodeFirst(b).value; EncodeChar(c) == b[..k]
  {
    var b0 := b[0] as int;
    if 0xC2 <= b0 < 0xE0 {
      EncodeTwoBytes(b0 - 0xC0, b[1] as int - 0x80);
    } else if 0xE0 <= b0 < 0xF0 {
      EncodeThreeBytes(b0 - 0xE0, b[1] as int - 0x80, b[2] as int - 0x80);
    } else if 0xF0 <= b0 < 0xF5 {
      EncodeFourBytes(b0 - 0xF0, b[1] as int - 0x80, b[2] as int - 0x80, b[3] as int - 0x80);
    }
  }

  lemma EncodeTwoBytes(a: int, x: int)
    requires 0 <= a < 32 && 0 <= x < 64
    ensures var n := a * 64 + x; n / 64 == a && n % 64 == x
  {
  }

  lemma EncodeThreeBytes(a: int, x: int, y: int)
    requires 0 <= a < 16 && 0 <= x < 64 && 0 <= y < 64
    ensures var n := a * 4096 + x * 64 + y;
      n / 4096 == a && n / 64 % 64 == x && n % 64 == y
  {
    var n := a * 4096 + x * 64 + y;
    var q := a * 64 + x;
    assert n == q * 64 + y;
    EncodeTwoBytes(a, x);
  }

  lemma EncodeFourBytes(a: int, x: int, y: int, z: int)
    requires 0 <= a < 8 && 0 <= x < 64 && 0 <= y < 64 && 0 <= z < 64
    ensures var n := a * 262144 + x * 4096 + y * 64 + z;
      n / 262144 == a && n / 4096 % 64 == x && n / 64 % 64 == y && n % 64 == z
  {
    var n := a * 262144 + x * 4096 + y * 64 + z;
    var q := a * 4096 + x * 64 + y;
    assert n == q * 64 + z;
    EncodeThreeBytes(a, x, y);
    assert n / 4096 == q / 64;
  }

  /** Decoding is strict: whatever it accepts is the encoding of what it returns. */
  lemma {:induction false} EncodeDecode(b: Bytes)
    requires Decode(b).Some?
    ensures Encode(Decode(b).value) == b
    decreases |b|
  {
    if b != [] {
      var (c, k) := DecodeFirst(b).value;
      EncodeCharDecodeFirst(b);
      EncodeDecode(b[k..]);
      var s := Decode(b[k..]).value;
      assert Decode(b).value == [c] + s;
      assert ([c] + s)[1..] == s;
      assert b[..k] + b[k..] == b;
    }
  }

  /** The bytes `b` decode to `s` exactly when `b` is the encoding of `s`. */
  lemma DecodeIff(b: Bytes, s: string)
    ensures Decode(b) == Some(s) <==> b == Encode(s)
  {
    if Decode(b) == Some(s) {
      EncodeDecode(b);
    }
    if b == Encode(s) {
      DecodeEncode(s);
    }
  }

  predicate IsAscii(s: string)
  {
    forall i :: 0 <= i < |s| ==> s[i] as int < 0x80
  }

  /** An ASCII string encodes to one byte per character, with the same codes. */
  lemma {:induction false} EncodeAscii(s: string)
    requires IsAscii(s)
    ensures |Encode(s)| == |s|
    ensures forall i :: 0 <= i < |s| ==> Encode(s)[i] as int == s[i] as int
  {
    if s != [] {
      assert IsAscii(s[1..]) by {
        forall i | 0 <= i < |s[1..]| ensures s[1..][i] as int < 0x80 {
          assert s[1..][i] == s[i + 1];
        }
      }
      EncodeAscii(s[1..]);
    }
  }

  lemma AsciiAppend(s: string, t: string)
    requires IsAscii(s) && IsAscii(t)
    ensures IsAscii(s + t)
  {
    assert forall i :: |s| <= i < |s + t| ==> (s + t)[i] == t[i - |s|];
  }

  /** Only the empty string encodes to no bytes. */
  lemma EncodeEmpty(s: string)
    ensures (Encode(s) == []) == (s == [])
  {
    if s != [] {
      assert Encode(s) == EncodeChar(s[0]) + Encode(s[1..]);
    }
  }
}
