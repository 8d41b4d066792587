/** The URL- and filename-safe Base64 alphabet of section 5 of RFC 4648, with
    '=' padding, as Python's `base64.urlsafe_b64encode` writes it and
    `base64.urlsafe_b64decode` reads it. The decoder first maps '-' and '_' to
    '+' and '/' and then decodes with the standard alphabet, so it reads both
    spellings of values 62 and 63. */
module Base64Url {
  import opened Wrappers
  import opened Utf8

  type sextet = v: int | 0 <= v < 64

  /** The characters an encoder writes for data: the alphabet of section 5 of
      RFC 4648. */
  predicate IsUrlSafeChar(c: char)
  {
    ('A' <= c <= 'Z') || ('a' <= c <= 'z') || ('0' <= c <= '9') || c == '-' || c == '_'
  }

  function Char(v: sextet): (c: char)
    ensures IsUrlSafeChar(c)
  {
    if v < 26 then ('A' as int + v) as char
    else if v < 52 then ('a' as int + v - 26) as char
    else if v < 62 then ('0' as int + v - 52) as char
    else if v == 62 then '-'
    else '_'
  }

  /** Whether the decoder reads `c` as a data character. */
  predicate IsDataChar(c: char)
  {
    ('A' <= c <= 'Z') || ('a' <= c <= 'z') || ('0' <= c <= '9') || c in "-_+/"
  }

  /** The value of a data character. */
  function Value(c: char): sextet
    requires IsDataChar(c)
  {
    if 'A' <= c <= 'Z' then c as int - 'A' as int
    else if 'a' <= c <= 'z' then c as int - 'a' as int + 26
    else if '0' <= c <= '9' then c as int - '0' as int + 52
    else if c == '-' || c == '+' then 62
    else 63
  }

  lemma {:induction false} ValueChar(v: sextet)
    ensures IsDataChar(Char(v)) && Value(Char(v)) == v
  {
  }

  /** Encoding: every three bytes become four characters; a final group of one
      or two bytes is padded with "==" or "=". The result is four characters
      per started group of three bytes, all from the URL-safe alphabet or '='. */
  function Encode(bs: seq<byte>): (s: string)
    ensures |s| == 4 * ((|bs| + 2) / 3)
    ensures forall i :: 0 <= i < |s| ==> IsUrlSafeChar(s[i]) || s[i] == '='
    decreases |bs|
  {
    if |bs| == 0 then []
    else if |bs| == 1 then
      [Char(bs[0] / 4), Char((bs[0] % 4) * 16), '=', '=']
    else if |bs| == 2 then
      [Char(bs[0] / 4), Char((bs[0] % 4) * 16 + bs[1] / 16), Char((bs[1] % 16) * 4), '=']
    else
      assert (|bs| + 2) / 3 == (|bs| - 3 + 2) / 3 + 1;
      [Char(bs[0] / 4), Char((bs[0] % 4) * 16 + bs[1] / 16),
       Char((bs[1] % 16) * 4 + bs[2] / 64), Char(bs[2] % 64)] + Encode(bs[3..])
  }

  /** The three bytes that four sextets carry. */
  function QuadBytes(v0: sextet, v1: sextet, v2: sextet, v3: sextet): seq<byte>
  {
    [v0 * 4 + v1 / 16, (v1 % 16) * 16 + v2 / 4, (v2 % 4) * 64 + v3]
  }

  /** The three bytes that four data characters carry. */
  function DecodeQuad(c0: char, c1: char, c2: char, c3: char): seq<byte>
    requires IsDataChar(c0) && IsDataChar(c1) && IsDataChar(c2) && IsDataChar(c3)
  {
    QuadBytes(Value(c0), Value(c1), Value(c2), Value(c3))
  }

  /** Decoding of well-formed input: whole groups of four data characters, the
      last of which may end in "==" or "=". Any other input is an error. The
      bits that padding leaves over are ignored, as Python ignores them. What
      decodes is whole groups of four characters, each giving three bytes,
      less one or two for the padding of the last. */
  function Decode(s: string): (r: Option<seq<byte>>)
    ensures r.Some? ==> |s| % 4 == 0 && 3 * (|s| / 4) - 2 <= |r.value| <= 3 * (|s| / 4)
    decreases |s|
  {
    if s == [] then Some([])
    else if |s| < 4 || !IsDataChar(s[0]) || !IsDataChar(s[1]) then None
    else if |s| == 4 && s[2] == '=' && s[3] == '=' then
      Some([Value(s[0]) * 4 + Value(s[1]) / 16])
    else if !IsDataChar(s[2]) then None
    else if |s| == 4 && s[3] == '=' then
      Some([Value(s[0]) * 4 + Value(s[1]) / 16, (Value(s[1]) % 16) * 16 + Value(s[2]) / 4])
    else if !IsDataChar(s[3]) then None
    else
      match Decode(s[4..])
      case None => None
      case Some(rest) =>
        assert |s| / 4 == |s[4..]| / 4 + 1;
        Some(DecodeQuad(s[0], s[1], s[2], s[3]) + rest)
  }

  lemma {:induction false} QuadRoundTrip(b0: byte, b1: byte, b2: byte)
    ensures QuadBytes(b0 / 4, (b0 % 4) * 16 + b1 / 16, (b1 % 16) * 4 + b2 / 64, b2 % 64) == [b0, b1, b2]
  {
    var v1 := (b0 % 4) * 16 + b1 / 16;
    assert v1 / 16 == b0 % 4 && v1 % 16 == b1 / 16;
    var v2 := (b1 % 16) * 4 + b2 / 64;
    assert v2 / 4 == b1 % 16 && v2 % 4 == b2 / 64;
  }

  /** Decoding what was encoded gives back the bytes. */
  lemma {:induction false} DecodeEncode(bs: seq<byte>)
    ensures Decode(Encode(bs)) == Some(bs)
    decreases |bs|
  {
    if |bs| == 1 {
      DecodeEncodeOne(bs);
    } else if |bs| == 2 {
      DecodeEncodeTwo(bs);
    } else if |bs| > 2 {
      DecodeEncode(bs[3..]);
      DecodeEncodeGroup(bs);
    }
  }

  lemma {:induction false} DecodeEncodeOne(bs: seq<byte>)
    requires |bs| == 1
    ensures Decode(Encode(bs)) == Some(bs)
  {
    var b0 := bs[0];
    var s := Encode(bs);
    ValueChar(b0 / 4);
    ValueChar((b0 % 4) * 16);
    QuadRoundTrip(b0, 0, 0);
    assert QuadBytes(b0 / 4, (b0 % 4) * 16, 0, 0)[0] == b0;
    assert s[2] == '=' && s[3] == '=' && |s| == 4;
    assert Decode(s) == Some([b0]);
    assert bs == [b0];
  }

  lemma {:induction false} DecodeEncodeTwo(bs: seq<byte>)
    requires |bs| == 2
    ensures Decode(Encode(bs)) == Some(bs)
  {
    var b0, b1 := bs[0], bs[1];
    var s := Encode(bs);
    ValueChar(b0 / 4);
    ValueChar((b0 % 4) * 16 + b1 / 16);
    ValueChar((b1 % 16) * 4);
    QuadRoundTrip(b0, b1, 0);
    var q := QuadBytes(b0 / 4, (b0 % 4) * 16 + b1 / 16, (b1 % 16) * 4, 0);
    assert q[0] == b0 && q[1] == b1;
    assert s[2] != '=' && s[3] == '=' && |s| == 4;
    assert Decode(s) == Some([b0, b1]);
    assert bs == [b0, b1];
  }

  lemma {:induction false} DecodeEncodeGroup(bs: seq<byte>)
    requires |bs| > 2 && Decode(Encode(bs[3..])) == Some(bs[3..])
    ensures Decode(Encode(bs)) == Some(bs)
  {
    var tail := bs[3..];
    assert bs == [bs[0], bs[1], bs[2]] + tail;
    EncodeUnfold(bs);
    DecodeQuadThen(bs[0], bs[1], bs[2], tail);
  }

  /** The four characters of a group, followed by the encoding of the rest,
      decode to the group's bytes followed by the rest. */
  lemma {:induction false} DecodeQuadThen(b0: byte, b1: byte, b2: byte, tail: seq<byte>)
    requires Decode(Encode(tail)) == Some(tail)
    ensures Decode([Char(b0 / 4), Char((b0 % 4) * 16 + b1 / 16),
                    Char((b1 % 16) * 4 + b2 / 64), Char(b2 % 64)] + Encode(tail))
            == Some([b0, b1, b2] + tail)
  {
    var c0, c1 := Char(b0 / 4), Char((b0 % 4) * 16 + b1 / 16);
    var c2, c3 := Char((b1 % 16) * 4 + b2 / 64), Char(b2 % 64);
    DecodeGroup(c0, c1, c2, c3, Encode(tail));
    DecodeQuadChars(b0, b1, b2);
  }

  lemma {:induction false} EncodeUnfold(bs: seq<byte>)
    requires |bs| > 2
    ensures Encode(bs) == [Char(bs[0] / 4), Char((bs[0] % 4) * 16 + bs[1] / 16),
                           Char((bs[1] % 16) * 4 + bs[2] / 64), Char(bs[2] % 64)] + Encode(bs[3..])
  {
  }

  lemma {:induction false} DecodeQuadChars(b0: byte, b1: byte, b2: byte)
    ensures var c0, c1 := Char(b0 / 4), Char((b0 % 4) * 16 + b1 / 16);
            var c2, c3 := Char((b1 % 16) * 4 + b2 / 64), Char(b2 % 64);
            DecodeQuad(c0, c1, c2, c3) == [b0, b1, b2]
  {
    var v0, v1 := b0 / 4, (b0 % 4) * 16 + b1 / 16;
    var v2, v3 := (b1 % 16) * 4 + b2 / 64, b2 % 64;
    ValueChar(v0);
    ValueChar(v1);
    ValueChar(v2);
    ValueChar(v3);
    assert DecodeQuad(Char(v0), Char(v1), Char(v2), Char(v3)) == QuadBytes(v0, v1, v2, v3);
    QuadRoundTrip(b0, b1, b2);
  }

  lemma {:induction false} DecodeGroup(c0: char, c1: char, c2: char, c3: char, rest: string)
    requires IsUrlSafeChar(c0) && IsUrlSafeChar(c1) && IsUrlSafeChar(c2) && IsUrlSafeChar(c3)
    ensures Decode([c0, c1, c2, c3] + rest)
         == match Decode(rest)
            case None => None
            case Some(r) => Some(DecodeQuad(c0, c1, c2, c3) + r)
  {
    var s := [c0, c1, c2, c3] + rest;
    assert s[4..] == rest;
  }
}
