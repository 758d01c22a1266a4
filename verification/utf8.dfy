/**
 UTF-8 encoding of a string, the first half of
 `Buffer.from(inlineSvg, 'utf-8')`. Characters are Unicode scalar values, so
 every string here is well formed and no replacement character is ever
 produced. The decoder comes with an inverse lemma showing the encoding is lossless.
 */
module Utf8 {
  import opened Wrappers
  import opened Bytes

  /** A continuation byte `10xxxxxx`. */
  predicate IsContinuation(b: byte) {
    0x80 <= b < 0xC0
  }

  /** Code point ranges that are Unicode scalar values. */
  predicate IsScalar(cp: int) {
    (0 <= cp < 0xD800) || (0xE000 <= cp < 0x11_0000)
  }

  /** The one to four bytes of one character. */
  function EncodeChar(c: char): (bs: seq<byte>)
    ensures 1 <= |bs| <= 4
    ensures |bs| == 1 <==> c as int < 0x80
    ensures forall i :: 1 <= i < |bs| ==> IsContinuation(bs[i])
  {
    var cp := c as int;
    if cp < 0x80 then [cp]
    else if cp < 0x800 then [0xC0 + cp / 64, 0x80 + cp % 64]
    else if cp < 0x1_0000 then [0xE0 + cp / 4096, 0x80 + (cp / 64) % 64, 0x80 + cp % 64]
    else [0xF0 + cp / 262144, 0x80 + (cp / 4096) % 64, 0x80 + (cp / 64) % 64, 0x80 + cp % 64]
  }

  /** The UTF-8 bytes of a string, character by character. */
  function Encode(s: string): (bs: seq<byte>)
    ensures |bs| >= |s|
  {
    if |s| == 0 then [] else EncodeChar(s[0]) + Encode(s[1..])
  }

  /** The code point a valid lead byte and its continuation bytes spell. */
  function DecodeChar(bs: seq<byte>): (r: Option<(char, nat)>)
    ensures r.Some? ==> 1 <= r.value.1 <= |bs|
  {
    if |bs| == 0 then None
    else
      var b0: int := bs[0];
      var (n, cp) :=
        if b0 < 0x80 then (1, b0 as int)
        else if 0xC0 <= b0 < 0xE0 && |bs| >= 2 && IsContinuation(bs[1]) then
          (2, (b0 - 0xC0) * 64 + (bs[1] as int - 0x80))
        else if 0xE0 <= b0 < 0xF0 && |bs| >= 3 && IsContinuation(bs[1]) && IsContinuation(bs[2]) then
          (3, (b0 - 0xE0) * 4096 + (bs[1] as int - 0x80) * 64 + (bs[2] as int - 0x80))
        else if 0xF0 <= b0 < 0xF8 && |bs| >= 4 && IsContinuation(bs[1]) && IsContinuation(bs[2]) && IsContinuation(bs[3]) then
          (4, (b0 - 0xF0) * 262144 + (bs[1] as int - 0x80) * 4096 + (bs[2] as int - 0x80) * 64 + (bs[3] as int - 0x80))
        else (0, -1 as int);
      if n == 0 || !IsScalar(cp) then None else Some((cp as char, n))
  }

  /** UTF-8 decoding (lenient about over-long forms, which the encoder never writes). */
  function Decode(bs: seq<byte>): (r: Option<string>)
    decreases |bs|
  {
    if |bs| == 0 then Some("")
    else
      match DecodeChar(bs)
      case None => None
      case Some(p) =>
        match Decode(bs[p.1..])
        case None => None
        case Some(rest) => Some([p.0] + rest)
  }

  lemma DecodeTwo(cp: int)
    requires 0x80 <= cp < 0x800
    ensures (cp / 64) * 64 + cp % 64 == cp
  {
  }

  lemma DecodeThree(cp: int)
    requires 0x800 <= cp < 0x1_0000
    ensures (cp / 4096) * 4096 + ((cp / 64) % 64) * 64 + cp % 64 == cp
  {
    var hi, mid := cp / 4096, (cp / 64) % 64;
    assert cp / 64 == hi * 64 + mid;
  }

  lemma DecodeFour(cp: int)
    requires 0x1_0000 <= cp < 0x11_0000
    ensures (cp / 262144) * 262144 + ((cp / 4096) % 64) * 4096 + ((cp / 64) % 64) * 64 + cp % 64 == cp
  {
    var q1 := cp / 64;
    var q2 := q1 / 64;
    assert cp / 4096 == q2;
    assert cp / 262144 == q2 / 64;
    assert q2 == (q2 / 64) * 64 + q2 % 64;
    assert q1 == q2 * 64 + q1 % 64;
  }

  /** Decoding the bytes of one character, whatever follows, gives that character back. */
  lemma DecodeEncodeChar(c: char, rest: seq<byte>)
    ensures DecodeChar(EncodeChar(c) + rest) == Some((c, |EncodeChar(c)|))
  {
    var cp := c as int;
    if 0x80 <= cp < 0x800 {
      DecodeTwo(cp);
    } else if 0x800 <= cp < 0x1_0000 {
      DecodeThree(cp);
    } else if 0x1_0000 <= cp {
      DecodeFour(cp);
    }
  }

  /** The encoding is lossless: decoding the UTF-8 bytes of a string gives the string. */
  lemma {:induction false} DecodeEncode(s: string)
    ensures Decode(Encode(s)) == Some(s)
  {
    if |s| > 0 {
      var e := EncodeChar(s[0]);
      DecodeEncodeChar(s[0], Encode(s[1..]));
      assert (e + Encode(s[1..]))[|e|..] == Encode(s[1..]);
      DecodeEncode(s[1..]);
      assert [s[0]] + s[1..] == s;
    }
  }
}
