/**
 Base64 as defined in section 4 of RFC 4648, the second half of
 `Buffer.from(inlineSvg, 'utf-8').toString('base64')`: every three bytes
 become four characters of the alphabet `A-Z a-z 0-9 + /`, and a final
 group of one or two bytes is padded with `=`.
 */
module Base64 {
  import opened Wrappers
  import opened Bytes

  /** The character for a six-bit value. */
  function Digit(v: int): (c: char)
    requires 0 <= v < 64
  {
    if v < 26 then ('A' as int + v) as char
    else if v < 52 then ('a' as int + (v - 26)) as char
    else if v < 62 then ('0' as int + (v - 52)) as char
    else if v == 62 then '+'
    else '/'
  }

  /** The six-bit value of an alphabet character; `None` for anything else, `=` included. */
  function Value(c: char): (r: Option<int>)
    ensures r.Some? ==> 0 <= r.value < 64 && Digit(r.value) == c
  {
    if 'A' <= c <= 'Z' then Some(c as int - 'A' as int)
    else if 'a' <= c <= 'z' then Some(c as int - 'a' as int + 26)
    else if '0' <= c <= '9' then Some(c as int - '0' as int + 52)
    else if c == '+' then Some(62)
    else if c == '/' then Some(63)
    else None
  }

  /** Characters that may appear in an encoding. */
  predicate IsEncodingChar(c: char) {
    Value(c).Some? || c == '='
  }

  /** The four characters for three bytes. */
  function EncodeGroup(b0: byte, b1: byte, b2: byte): string {
    [Digit(b0 / 4), Digit((b0 % 4) * 16 + b1 / 16), Digit((b1 % 16) * 4 + b2 / 64), Digit(b2 % 64)]
  }

  /** The base64 encoding of a byte sequence, with padding. */
  function Encode(bs: seq<byte>): (s: string)
    ensures |s| % 4 == 0
    ensures |bs| > 0 ==> |s| > 0
    decreases |bs|
  {
    if |bs| == 0 then ""
    else if |bs| == 1 then [Digit(bs[0] / 4), Digit((bs[0] % 4) * 16), '=', '=']
    else if |bs| == 2 then [Digit(bs[0] / 4), Digit((bs[0] % 4) * 16 + bs[1] / 16), Digit((bs[1] % 16) * 4), '=']
    else EncodeGroup(bs[0], bs[1], bs[2]) + Encode(bs[3..])
  }

  /** Decoding of padded base64; `None` for anything `Encode` cannot produce a prefix of. */
  function Decode(s: string): (r: Option<seq<byte>>)
    decreases |s|
  {
    if |s| == 0 then Some([])
    else if |s| < 4 then None
    else
      var v0 := Value(s[0]);
      var v1 := Value(s[1]);
      var v2 := Value(s[2]);
      var v3 := Value(s[3]);
      if v0.None? || v1.None? then None
      else if |s| == 4 && s[2] == '=' && s[3] == '=' then
        Some([v0.value * 4 + v1.value / 16])
      else if v2.None? then None
      else if |s| == 4 && s[3] == '=' then
        Some([v0.value * 4 + v1.value / 16, (v1.value % 16) * 16 + v2.value / 4])
      else if v3.None? then None
      else
        var group := [v0.value * 4 + v1.value / 16, (v1.value % 16) * 16 + v2.value / 4, (v2.value % 4) * 64 + v3.value];
        match Decode(s[4..])
        case None => None
        case Some(rest) => Some(group + rest)
  }

  lemma DigitValue(v: int)
    requires 0 <= v < 64
    ensures Value(Digit(v)) == Some(v)
  {
  }

  /** The arithmetic of one group: the three bytes are recovered from the four six-bit values. */
  lemma GroupArithmetic(b0: byte, b1: byte, b2: byte)
    ensures (b0 / 4) * 4 + ((b0 % 4) * 16 + b1 / 16) / 16 == b0
    ensures (((b0 % 4) * 16 + b1 / 16) % 16) * 16 + ((b1 % 16) * 4 + b2 / 64) / 4 == b1
    ensures (((b1 % 16) * 4 + b2 / 64) % 4) * 64 + b2 % 64 == b2
  {
  }

  lemma DigitNotPad(v: int)
    requires 0 <= v < 64
    ensures Value(Digit(v)) == Some(v) && Digit(v) != '='
  {
    DigitValue(v);
  }

  /** A final single byte: two digits and two pad characters. */
  lemma DecodeLastOne(b0: byte)
    ensures Decode(Encode([b0])) == Some([b0])
  {
    var v0, v1 := b0 / 4, (b0 % 4) * 16;
    DigitNotPad(v0);
    DigitNotPad(v1);
    GroupArithmetic(b0, 0, 0);
    assert Encode([b0]) == [Digit(v0), Digit(v1), '=', '='];
  }

  /** A final pair of bytes: three digits and one pad character. */
  lemma DecodeLastTwo(b0: byte, b1: byte)
    ensures Decode(Encode([b0, b1])) == Some([b0, b1])
  {
    var v0, v1, v2 := b0 / 4, (b0 % 4) * 16 + b1 / 16, (b1 % 16) * 4;
    DigitNotPad(v0);
    DigitNotPad(v1);
    DigitNotPad(v2);
    GroupArithmetic(b0, b1, 0);
    var s := Encode([b0, b1]);
    assert s == [Digit(v0), Digit(v1), Digit(v2), '='];
    assert Decode(s) == Some([v0 * 4 + v1 / 16, (v1 % 16) * 16 + v2 / 4]);
    assert (v1 % 16) * 16 + v2 / 4 == b1;
  }

  /** A full group decodes to its three bytes, followed by whatever the rest decodes to. */
  lemma DecodeGroup(b0: byte, b1: byte, b2: byte, t: string, rest: seq<byte>)
    requires Decode(t) == Some(rest)
    ensures Decode(EncodeGroup(b0, b1, b2) + t) == Some([b0, b1, b2] + rest)
  {
    var v0, v1, v2, v3 := b0 / 4, (b0 % 4) * 16 + b1 / 16, (b1 % 16) * 4 + b2 / 64, b2 % 64;
    DigitNotPad(v0);
    DigitNotPad(v1);
    DigitNotPad(v2);
    DigitNotPad(v3);
    GroupArithmetic(b0, b1, b2);
    var s := EncodeGroup(b0, b1, b2) + t;
    assert s[..4] == [Digit(v0), Digit(v1), Digit(v2), Digit(v3)];
    assert s[4..] == t;
    assert [v0 * 4 + v1 / 16, (v1 % 16) * 16 + v2 / 4, (v2 % 4) * 64 + v3] == [b0, b1, b2];
  }

  /** One to two bytes: the padded final group. */
  lemma DecodeEncodeShort(bs: seq<byte>)
    requires 1 <= |bs| <= 2
    ensures Decode(Encode(bs)) == Some(bs)
  {
    if |bs| == 1 {
      assert bs == [bs[0]];
      DecodeLastOne(bs[0]);
    } else {
      assert bs == [bs[0], bs[1]];
      DecodeLastTwo(bs[0], bs[1]);
    }
  }

  /** Three or more bytes: a full group, then the encoding of the rest. */
  lemma EncodeStep(bs: seq<byte>)
    requires |bs| >= 3
    ensures Encode(bs) == EncodeGroup(bs[0], bs[1], bs[2]) + Encode(bs[3..])
  {
  }

  /** A leading full group is decoded in front of the rest's decoding. */
  lemma DecodeEncodeGroup(b0: byte, b1: byte, b2: byte, rest: seq<byte>)
    requires Decode(Encode(rest)) == Some(rest)
    ensures Decode(Encode([b0, b1, b2] + rest)) == Some([b0, b1, b2] + rest)
  {
    var bs := [b0, b1, b2] + rest;
    assert bs[0] == b0 && bs[1] == b1 && bs[2] == b2 && bs[3..] == rest;
    EncodeStep(bs);
    DecodeGroup(b0, b1, b2, Encode(rest), rest);
  }

  /** Decoding an encoding gives the bytes back. */
  lemma {:induction false} DecodeEncode(bs: seq<byte>)
    ensures Decode(Encode(bs)) == Some(bs)
    decreases |bs|
  {
    if |bs| >= 3 {
      DecodeEncode(bs[3..]);
      DecodeEncodeGroup(bs[0], bs[1], bs[2], bs[3..]);
      assert [bs[0], bs[1], bs[2]] + bs[3..] == bs;
    } else if |bs| >= 1 {
      DecodeEncodeShort(bs);
    }
  }

  /** An encoding uses only alphabet characters and `=`. */
  lemma {:induction false} EncodeUsesAlphabet(bs: seq<byte>)
    ensures forall i :: 0 <= i < |Encode(bs)| ==> IsEncodingChar(Encode(bs)[i])
    decreases |bs|
  {
    var s := Encode(bs);
    if |bs| == 1 {
      DigitNotPad(bs[0] / 4);
      DigitNotPad((bs[0] % 4) * 16);
    } else if |bs| == 2 {
      DigitNotPad(bs[0] / 4);
      DigitNotPad((bs[0] % 4) * 16 + bs[1] / 16);
      DigitNotPad((bs[1] % 16) * 4);
    } else if |bs| >= 3 {
      var g := EncodeGroup(bs[0], bs[1], bs[2]);
      DigitNotPad(bs[0] / 4);
      DigitNotPad((bs[0] % 4) * 16 + bs[1] / 16);
      DigitNotPad((bs[1] % 16) * 4 + bs[2] / 64);
      DigitNotPad(bs[2] % 64);
      EncodeUsesAlphabet(bs[3..]);
      assert s == g + Encode(bs[3..]);
      forall i | 0 <= i < |s| ensures IsEncodingChar(s[i]) {
        if i >= 4 {
          assert s[i] == Encode(bs[3..])[i - 4];
        }
      }
    }
  }

  /** Four characters for every started group of three bytes. */
  lemma {:induction false} EncodeLength(bs: seq<byte>)
    ensures |Encode(bs)| == 4 * ((|bs| + 2) / 3)
    decreases |bs|
  {
    if |bs| >= 3 {
      EncodeLength(bs[3..]);
      EncodeStep(bs);
      assert (|bs| + 2) / 3 == (|bs[3..]| + 2) / 3 + 1;
    }
  }
}
