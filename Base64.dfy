/** The base 64 encoding of section 4 of RFC 4648, as `btoa` produces it (the
    standard alphabet, `=` padding, no line breaks), and a strict decoder. */
module Base64 {
  import opened Types
  import opened Utf8

  /** The 64 digits of the alphabet (Table 1 of RFC 4648). */
  function Digit(v: int): (c: char)
    requires 0 <= v < 64
  {
    if v < 26 then (('A' as int) + v) as char
    else if v < 52 then (('a' as int) + (v - 26)) as char
    else if v < 62 then (('0' as int) + (v - 52)) as char
    else if v == 62 then '+'
    else '/'
  }

  predicate IsDigit(c: char) {
    ('A' <= c <= 'Z') || ('a' <= c <= 'z') || ('0' <= c <= '9') || c == '+' || c == '/'
  }

  /** The value of an alphabet character, if it is one. */
  function DigitValue(c: char): (r: Option<int>)
    ensures r.Some? <==> IsDigit(c)
    ensures r.Some? ==> 0 <= r.value < 64 && Digit(r.value) == c
  {
    if 'A' <= c <= 'Z' then Some((c as int) - ('A' as int))
    else if 'a' <= c <= 'z' then Some((c as int) - ('a' as int) + 26)
    else if '0' <= c <= '9' then Some((c as int) - ('0' as int) + 52)
    else if c == '+' then Some(62)
    else if c == '/' then Some(63)
    else None
  }

  lemma DigitValueOfDigit(v: int)
    requires 0 <= v < 64
    ensures DigitValue(Digit(v)) == Some(v)
  {
  }

  /** `btoa` of the bytes: each group of three bytes becomes four digits, and a
      final group of one or two bytes is padded with `=`. */
  function Encode(bs: seq<Byte>): (s: string)
    decreases |bs|
  {
    if |bs| == 0 then ""
    else if |bs| == 1 then
      [Digit(bs[0] / 4), Digit((bs[0] % 4) * 16), '=', '=']
    else if |bs| == 2 then
      [Digit(bs[0] / 4), Digit((bs[0] % 4) * 16 + bs[1] / 16), Digit((bs[1] % 16) * 4), '=']
    else EncodeGroup(bs[0], bs[1], bs[2]) + Encode(bs[3..])
  }

  /** Four digits without padding give three bytes. */
  function DecodeQuad(q: string): (r: Option<seq<Byte>>)
    requires |q| == 4
    ensures r.Some? ==> |r.value| == 3
  {
    match (DigitValue(q[0]), DigitValue(q[1]), DigitValue(q[2]), DigitValue(q[3]))
    case (Some(v0), Some(v1), Some(v2), Some(v3)) =>
      Some([v0 * 4 + v1 / 16, (v1 % 16) * 16 + v2 / 4, (v2 % 4) * 64 + v3])
    case _ => None
  }

  /** The last group: four digits, or two or three digits padded with `=`.
      Bits that the padding leaves over must be zero (section 3.5 of RFC 4648). */
  function DecodeLast(q: string): (r: Option<seq<Byte>>)
    requires |q| == 4
    ensures r.Some? ==> 1 <= |r.value| <= 3
  {
    if q[2] == '=' && q[3] == '=' then
      match (DigitValue(q[0]), DigitValue(q[1]))
      case (Some(v0), Some(v1)) =>
        if v1 % 16 == 0 then Some([v0 * 4 + v1 / 16]) else None
      case _ => None
    else if q[3] == '=' then
      match (DigitValue(q[0]), DigitValue(q[1]), DigitValue(q[2]))
      case (Some(v0), Some(v1), Some(v2)) =>
        if v2 % 4 == 0 then Some([v0 * 4 + v1 / 16, (v1 % 16) * 16 + v2 / 4]) else None
      case _ => None
    else DecodeQuad(q)
  }

  /** Strict decoding: the length is a multiple of four and padding appears
      only in the last group. */
  function Decode(s: string): Option<seq<Byte>>
    decreases |s|
  {
    if |s| == 0 then Some([])
    else if |s| < 4 then None
    else if |s| == 4 then DecodeLast(s)
    else
      match DecodeQuad(s[..4])
      case None => None
      case Some(head) =>
        match Decode(s[4..])
        case None => None
        case Some(tail) => Some(head + tail)
  }

  /** Four output characters for every started group of three bytes, all of
      them alphabet digits or `=`. */
  lemma {:induction false} EncodeShape(bs: seq<Byte>)
    ensures |Encode(bs)| == 4 * ((|bs| + 2) / 3)
    ensures IsOutput(Encode(bs))
    decreases |bs|
  {
    if |bs| > 2 {
      EncodeShape(bs[3..]);
      EncodeGroupDigits(bs[0], bs[1], bs[2]);
      EncodeFront(bs);
      OutputAppend(EncodeGroup(bs[0], bs[1], bs[2]), Encode(bs[3..]));
      GroupCount(|bs|);
    } else if |bs| > 0 {
      EncodeLastDigits(bs);
    }
  }

  /** One more full group, four more characters. */
  lemma GroupCount(n: int)
    requires n > 2
    ensures 4 * ((n + 2) / 3) == 4 + 4 * ((n - 3 + 2) / 3)
  {
  }

  /** A full group is written first, then the rest. */
  lemma EncodeFront(bs: seq<Byte>)
    requires |bs| > 2
    ensures Encode(bs) == EncodeGroup(bs[0], bs[1], bs[2]) + Encode(bs[3..])
  {
  }

  /** Output characters: alphabet digits and padding. */
  predicate IsOutput(s: string) {
    forall i :: 0 <= i < |s| ==> IsDigit(s[i]) || s[i] == '='
  }

  lemma OutputAppend(a: string, b: string)
    requires IsOutput(a) && IsOutput(b)
    ensures IsOutput(a + b)
  {
  }

  lemma EncodeGroupDigits(b0: Byte, b1: Byte, b2: Byte)
    ensures IsOutput(EncodeGroup(b0, b1, b2))
  {
    DigitValueOfDigit(b0 / 4);
    DigitValueOfDigit((b0 % 4) * 16 + b1 / 16);
    DigitValueOfDigit((b1 % 16) * 4 + b2 / 64);
    DigitValueOfDigit(b2 % 64);
  }

  lemma EncodeLastDigits(bs: seq<Byte>)
    requires 1 <= |bs| <= 2
    ensures |Encode(bs)| == 4 && IsOutput(Encode(bs))
  {
    DigitValueOfDigit(bs[0] / 4);
    if |bs| == 1 {
      DigitValueOfDigit((bs[0] % 4) * 16);
    } else {
      DigitValueOfDigit((bs[0] % 4) * 16 + bs[1] / 16);
      DigitValueOfDigit((bs[1] % 16) * 4);
    }
  }

  /** The bit regrouping of one full group is undone by the decoder's. */
  lemma GroupArith(b0: Byte, b1: Byte, b2: Byte)
    ensures var v1, v2 := (b0 % 4) * 16 + b1 / 16, (b1 % 16) * 4 + b2 / 64;
      (b0 / 4) * 4 + v1 / 16 == b0 && (v1 % 16) * 16 + v2 / 4 == b1 && (v2 % 4) * 64 + b2 % 64 == b2
  {
    var v1, v2 := (b0 % 4) * 16 + b1 / 16, (b1 % 16) * 4 + b2 / 64;
    assert v1 / 16 == b0 % 4 && v1 % 16 == b1 / 16;
    assert v2 / 4 == b1 % 16 && v2 % 4 == b2 / 64;
  }

  /** The four digits a full group of three bytes is written as. */
  function EncodeGroup(b0: Byte, b1: Byte, b2: Byte): (q: string)
    ensures |q| == 4
  {
    [Digit(b0 / 4), Digit((b0 % 4) * 16 + b1 / 16), Digit((b1 % 16) * 4 + b2 / 64), Digit(b2 % 64)]
  }

  lemma DecodeQuadEncodeGroup(b0: Byte, b1: Byte, b2: Byte)
    ensures DecodeQuad(EncodeGroup(b0, b1, b2)) == Some([b0, b1, b2])
  {
    var v0, v1, v2, v3 := b0 / 4, (b0 % 4) * 16 + b1 / 16, (b1 % 16) * 4 + b2 / 64, b2 % 64;
    DigitValueOfDigit(v0);
    DigitValueOfDigit(v1);
    DigitValueOfDigit(v2);
    DigitValueOfDigit(v3);
    GroupArith(b0, b1, b2);
  }

  lemma DecodeLastEncodeOne(b0: Byte)
    ensures DecodeLast(Encode([b0])) == Some([b0])
  {
    var v0, v1 := b0 / 4, (b0 % 4) * 16;
    DigitValueOfDigit(v0);
    DigitValueOfDigit(v1);
    assert Encode([b0]) == [Digit(v0), Digit(v1), '=', '='];
    assert v1 % 16 == 0 && v0 * 4 + v1 / 16 == b0;
  }

  lemma DecodeLastEncodeTwo(b0: Byte, b1: Byte)
    ensures DecodeLast(Encode([b0, b1])) == Some([b0, b1])
  {
    var v0, v1, v2 := b0 / 4, (b0 % 4) * 16 + b1 / 16, (b1 % 16) * 4;
    DigitValueOfDigit(v0);
    DigitValueOfDigit(v1);
    DigitValueOfDigit(v2);
    GroupArith(b0, b1, 0);
    var q := Encode([b0, b1]);
    assert q == [Digit(v0), Digit(v1), Digit(v2), '='];
    assert q[2] != '=';
    assert v2 % 4 == 0;
  }

  /** Round trip: decoding what `btoa` wrote gives the bytes back. */
  lemma {:induction false} DecodeEncode(bs: seq<Byte>)
    ensures Decode(Encode(bs)) == Some(bs)
    decreases |bs|
  {
    var s := Encode(bs);
    if |bs| == 1 {
      DecodeLastEncodeOne(bs[0]);
      assert bs == [bs[0]];
    } else if |bs| == 2 {
      DecodeLastEncodeTwo(bs[0], bs[1]);
      assert bs == [bs[0], bs[1]];
    } else if |bs| >= 3 {
      var head := EncodeGroup(bs[0], bs[1], bs[2]);
      DecodeQuadEncodeGroup(bs[0], bs[1], bs[2]);
      EncodeFront(bs);
      assert [bs[0], bs[1], bs[2]] == bs[..3];
      if |bs| == 3 {
        assert s == head;
        assert DecodeLast(head) == DecodeQuad(head);
        assert bs == bs[..3];
      } else {
        DecodeEncode(bs[3..]);
        EncodeShape(bs[3..]);
        DecodeGroupThen(head, Encode(bs[3..]), bs[..3], bs[3..]);
        assert bs == bs[..3] + bs[3..];
      }
    }
  }

  /** A full group followed by more groups decodes to the group's bytes
      followed by the rest. */
  lemma DecodeGroupThen(head: string, tail: string, h: seq<Byte>, t: seq<Byte>)
    requires |head| == 4 && |tail| > 0
    requires DecodeQuad(head) == Some(h) && Decode(tail) == Some(t)
    ensures Decode(head + tail) == Some(h + t)
  {
    assert (head + tail)[..4] == head && (head + tail)[4..] == tail;
  }

  /** The decoder accepts only what `btoa` writes: whatever it accepts is the
      encoding of the bytes it returns. */
  lemma {:induction false} EncodeDecode(s: string)
    requires Decode(s).Some?
    ensures Encode(Decode(s).value) == s
    decreases |s|
  {
    var bs := Decode(s).value;
    if |s| == 4 {
      EncodeDecodeLast(s);
    } else if |s| > 4 {
      EncodeDecodeQuad(s[..4]);
      EncodeDecode(s[4..]);
      var head := DecodeQuad(s[..4]).value;
      assert bs == head + Decode(s[4..]).value;
      assert bs[3..] == Decode(s[4..]).value;
      assert bs[..3] == head;
      assert s == s[..4] + s[4..];
    }
  }

  lemma EncodeDecodeQuad(q: string)
    requires |q| == 4 && DecodeQuad(q).Some?
    ensures var b := DecodeQuad(q).value; EncodeGroup(b[0], b[1], b[2]) == q
  {
    var v0, v1, v2, v3 := DigitValue(q[0]).value, DigitValue(q[1]).value, DigitValue(q[2]).value, DigitValue(q[3]).value;
    var b := DecodeQuad(q).value;
    assert b[0] / 4 == v0 && b[0] % 4 == v1 / 16;
    assert b[1] / 16 == v1 % 16 && b[1] % 16 == v2 / 4;
    assert b[2] / 64 == v2 % 4 && b[2] % 64 == v3;
  }

  lemma EncodeDecodeLast(q: string)
    requires |q| == 4 && DecodeLast(q).Some?
    ensures Encode(DecodeLast(q).value) == q
  {
    var b := DecodeLast(q).value;
    if q[2] == '=' && q[3] == '=' {
      var v0, v1 := DigitValue(q[0]).value, DigitValue(q[1]).value;
      assert b[0] / 4 == v0 && (b[0] % 4) * 16 == v1;
    } else if q[3] == '=' {
      var v0, v1, v2 := DigitValue(q[0]).value, DigitValue(q[1]).value, DigitValue(q[2]).value;
      assert b[0] / 4 == v0 && (b[0] % 4) * 16 + b[1] / 16 == v1;
      assert (b[1] % 16) * 4 == v2;
    } else {
      EncodeDecodeQuad(q);
      assert b[3..] == [];
    }
  }
}
