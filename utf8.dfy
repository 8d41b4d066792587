/** Strict UTF-8, as Python's `str.encode()` and `bytes.decode()` use it when
    a token is built and read back. Strings are sequences of Unicode scalar
    values, so encoding cannot fail; decoding rejects malformed input. */
module Utf8 {
  import opened Wrappers

  type byte = b: int | 0 <= b < 256

  predicate IsContinuation(b: byte) { 0x80 <= b < 0xC0 }

  /** The one to four bytes that encode a scalar value. */
  function EncodeChar(c: char): (r: seq<byte>)
    ensures 1 <= |r| <= 4
  {
    var n := c as int;
    if n < 0x80 then [n]
    else if n < 0x800 then [0xC0 + n / 64, 0x80 + n % 64]
    else if n < 0x1_0000 then [0xE0 + n / 4096, 0x80 + (n / 64) % 64, 0x80 + n % 64]
    else [0xF0 + n / 262144, 0x80 + (n / 4096) % 64, 0x80 + (n / 64) % 64, 0x80 + n % 64]
  }

  /** UTF-8 encoding: each character takes one to four bytes. */
  function Encode(s: string): (r: seq<byte>)
    ensures |s| <= |r| <= 4 * |s|
  {
    if s == [] then [] else EncodeChar(s[0]) + Encode(s[1..])
  }

  /** The scalar value at the front of `bs` and the number of bytes it takes,
      or None when those bytes are not well-formed UTF-8 (a stray
      continuation byte, a truncated sequence, an overlong form, a surrogate,
      or a value past U+10FFFF). */
  function DecodeFirst(bs: seq<byte>): (r: Option<(char, nat)>)
    requires |bs| > 0
    ensures r.Some? ==> 1 <= r.value.1 <= |bs|
  {
    var b0 := bs[0] as int;
    if b0 < 0x80 then Some((b0 as char, 1))
    else if 0xC2 <= b0 < 0xE0 then
      if |bs| < 2 || !IsContinuation(bs[1]) then None
      else Some((((b0 - 0xC0) * 64 + (bs[1] as int - 0x80)) as char, 2))
    else if 0xE0 <= b0 < 0xF0 then
      if |bs| < 3 || !IsContinuation(bs[1]) || !IsContinuation(bs[2]) then None
      else
        var n := (b0 - 0xE0) * 4096 + (bs[1] as int - 0x80) * 64 + (bs[2] as int - 0x80);
        if n < 0x800 || (0xD800 <= n < 0xE000) then None else Some((n as char, 3))
    else if 0xF0 <= b0 < 0xF5 then
      if |bs| < 4 || !IsContinuation(bs[1]) || !IsContinuation(bs[2]) || !IsContinuation(bs[3]) then None
      else
        var n := (b0 - 0xF0) * 262144 + (bs[1] as int - 0x80) * 4096 + (bs[2] as int - 0x80) * 64 + (bs[3] as int - 0x80);
        if n < 0x1_0000 || n >= 0x11_0000 then None else Some((n as char, 4))
    else None
  }

  /** UTF-8 decoding, as bytes.decode("utf-8") in strict mode: every
      character takes at least one byte. */
  function Decode(bs: seq<byte>): (r: Option<string>)
    ensures r.Some? ==> |r.value| <= |bs| && (r.value == [] <==> bs == [])
    decreases |bs|
  {
    if bs == [] then Some([])
    else
      match DecodeFirst(bs)
      case None => None
      case Some((c, k)) =>
        match Decode(bs[k..])
        case None => None
        case Some(rest) => Some([c] + rest)
  }

  lemma {:induction false} DecodeFirstEncodeChar(c: char, rest: seq<byte>)
    ensures DecodeFirst(EncodeChar(c) + rest) == Some((c, |EncodeChar(c)|))
  {
    var n := c as int;
    if n < 0x80 {
    } else if n < 0x800 {
      DecodeTwo(c, rest);
    } else if n < 0x1_0000 {
      DecodeThree(c, rest);
    } else {
      DecodeFour(c, rest);
    }
  }

  lemma {:induction false} DecodeTwo(c: char, rest: seq<byte>)
    requires 0x80 <= c as int < 0x800
    ensures DecodeFirst(EncodeChar(c) + rest) == Some((c, 2))
  {
    var n := c as int;
    var bs := EncodeChar(c) + rest;
    assert bs[0] == 0xC0 + n / 64 && bs[1] == 0x80 + n % 64;
    assert (n / 64) * 64 + n % 64 == n;
  }

  lemma {:induction false} DecodeThree(c: char, rest: seq<byte>)
    requires 0x800 <= c as int < 0x1_0000
    ensures DecodeFirst(EncodeChar(c) + rest) == Some((c, 3))
  {
    var n := c as int;
    var bs := EncodeChar(c) + rest;
    var q, d := n / 64, n % 64;
    assert n == q * 64 + d;
    var a, b := q / 64, q % 64;
    assert q == a * 64 + b;
    assert n / 4096 == a;
    assert bs[0] == 0xE0 + a && bs[1] == 0x80 + b && bs[2] == 0x80 + d;
    assert a * 4096 + b * 64 + d == n;
  }

  lemma {:induction false} DecodeFour(c: char, rest: seq<byte>)
    requires 0x1_0000 <= c as int
    ensures DecodeFirst(EncodeChar(c) + rest) == Some((c, 4))
  {
    var n := c as int;
    var bs := EncodeChar(c) + rest;
    var q, d := n / 64, n % 64;
    assert n == q * 64 + d;
    var r, b := q / 64, q % 64;
    assert q == r * 64 + b;
    var a, e := r / 64, r % 64;
    assert r == a * 64 + e;
    assert n / 4096 == r && n / 262144 == a;
    assert bs[0] == 0xF0 + a && bs[1] == 0x80 + e && bs[2] == 0x80 + b && bs[3] == 0x80 + d;
    assert a * 262144 + e * 4096 + b * 64 + d == n;
  }

  /** Decoding what was encoded gives back the string. */
  lemma {:induction false} DecodeEncode(s: string)
    ensures Decode(Encode(s)) == Some(s)
  {
    if s != [] {
      var e := EncodeChar(s[0]);
      DecodeFirstEncodeChar(s[0], Encode(s[1..]));
      assert (e + Encode(s[1..]))[|e|..] == Encode(s[1..]);
      DecodeEncode(s[1..]);
      assert [s[0]] + s[1..] == s;
    }
  }

  lemma {:induction false} DecodeFirstExact(bs: seq<byte>)
    requires |bs| > 0 && DecodeFirst(bs).Some?
    ensures EncodeChar(DecodeFirst(bs).value.0) == bs[..DecodeFirst(bs).value.1]
  {
    var b0 := bs[0] as int;
    if b0 < 0x80 {
    } else if b0 < 0xE0 {
      EncodeTwo(b0 - 0xC0, bs[1] as int - 0x80);
    } else if b0 < 0xF0 {
      EncodeThree(b0 - 0xE0, bs[1] as int - 0x80, bs[2] as int - 0x80);
    } else {
      EncodeFour(b0 - 0xF0, bs[1] as int - 0x80, bs[2] as int - 0x80, bs[3] as int - 0x80);
    }
  }

  lemma {:induction false} EncodeTwo(x: int, y: int)
    requires 2 <= x < 32 && 0 <= y < 64
    ensures EncodeChar((x * 64 + y) as char) == [0xC0 + x, 0x80 + y]
  {
    var n := x * 64 + y;
    assert n / 64 == x && n % 64 == y;
  }

  lemma {:induction false} EncodeThree(x: int, y: int, z: int)
    requires 0 <= x < 16 && 0 <= y < 64 && 0 <= z < 64
    requires var n := x * 4096 + y * 64 + z; 0x800 <= n && !(0xD800 <= n < 0xE000)
    ensures EncodeChar((x * 4096 + y * 64 + z) as char) == [0xE0 + x, 0x80 + y, 0x80 + z]
  {
    var n := x * 4096 + y * 64 + z;
    assert n % 64 == z && n / 64 == x * 64 + y;
    assert (n / 64) % 64 == y && n / 4096 == x;
  }

  lemma {:induction false} EncodeFour(w: int, x: int, y: int, z: int)
    requires 0 <= w < 5 && 0 <= x < 64 && 0 <= y < 64 && 0 <= z < 64
    requires var n := w * 262144 + x * 4096 + y * 64 + z; 0x1_0000 <= n < 0x11_0000
    ensures EncodeChar((w * 262144 + x * 4096 + y * 64 + z) as char)
         == [0xF0 + w, 0x80 + x, 0x80 + y, 0x80 + z]
  {
    var n := w * 262144 + x * 4096 + y * 64 + z;
    assert n % 64 == z && n / 64 == w * 4096 + x * 64 + y;
    assert (n / 64) % 64 == y && n / 4096 == w * 64 + x;
    assert (n / 4096) % 64 == x && n / 262144 == w;
  }

  /** Decoding is exact: whatever decodes encodes back to the same bytes, so
      two byte strings never decode to the same text. */
  lemma {:induction false} EncodeDecode(bs: seq<byte>)
    requires Decode(bs).Some?
    ensures Encode(Decode(bs).value) == bs
    decreases |bs|
  {
    if bs != [] {
      var k := DecodeSplit(bs);
      EncodeDecode(bs[k..]);
      assert bs == bs[..k] + bs[k..];
    }
  }

  /** One step of decoding: the first character's bytes, then the rest. */
  lemma {:induction false} DecodeSplit(bs: seq<byte>) returns (k: nat)
    requires bs != [] && Decode(bs).Some?
    ensures 1 <= k <= |bs| && Decode(bs[k..]).Some?
    ensures Encode(Decode(bs).value) == bs[..k] + Encode(Decode(bs[k..]).value)
  {
    var c;
    c, k := DecodeFirst(bs).value.0, DecodeFirst(bs).value.1;
    DecodeFirstExact(bs);
    var rest := Decode(bs[k..]).value;
    var s := Decode(bs).value;
    assert s == [c] + rest;
    assert s[0] == c && s[1..] == rest;
  }
}
