/** UTF-8 (RFC 3629): the byte form `unescape(encodeURIComponent(s))` hands to
    `btoa`, and the strict decoder that reads it back. */
module Utf8 {
  import opened Types

  type Byte = b: int | 0 <= b < 256

  /** A Unicode scalar value: a code point that is not a surrogate. */
  predicate IsScalar(n: int) {
    0 <= n < 0xD800 || 0xE000 <= n < 0x11_0000
  }

  /** A continuation byte `10xxxxxx`. */
  predicate IsCont(b: Byte) {
    0x80 <= b < 0xC0
  }

  /** The shortest UTF-8 form of one scalar value (section 3 of RFC 3629). */
  function EncodeChar(c: char): (bs: seq<Byte>)
    ensures 1 <= |bs| <= 4
    ensures |bs| == 1 <==> (c as int) < 0x80
    ensures bs[0] < 0x80 || 0xC2 <= bs[0] < 0xF5
    ensures forall i :: 1 <= i < |bs| ==> IsCont(bs[i])
  {
    var n := c as int;
    if n < 0x80 then [n]
    else if n < 0x800 then [0xC0 + n / 0x40, 0x80 + n % 0x40]
    else if n < 0x1_0000 then [0xE0 + n / 0x1000, 0x80 + (n / 0x40) % 0x40, 0x80 + n % 0x40]
    else [0xF0 + n / 0x4_0000, 0x80 + (n / 0x1000) % 0x40, 0x80 + (n / 0x40) % 0x40, 0x80 + n % 0x40]
  }

  /** The UTF-8 bytes of a string, character after character. */
  function Encode(s: string): seq<Byte>
    decreases |s|
  {
    if |s| == 0 then [] else EncodeChar(s[0]) + Encode(s[1..])
  }

  /** Reads the first scalar value of `bs`, with the number of bytes it takes;
      overlong forms, surrogates and values past U+10FFFF are refused. */
  function DecodeFirst(bs: seq<Byte>): (r: Option<(char, nat)>)
    requires |bs| > 0
    ensures r.Some? ==> 1 <= r.value.1 <= |bs| && r.value.1 <= 4
  {
    var b0: int := bs[0];
    if b0 < 0x80 then Some((b0 as char, 1))
    else if 0xC2 <= b0 < 0xE0 then
      if |bs| >= 2 && IsCont(bs[1]) then
        Some((((b0 - 0xC0) * 0x40 + (bs[1] as int - 0x80)) as char, 2))
      else None
    else if 0xE0 <= b0 < 0xF0 then
      if |bs| >= 3 && IsCont(bs[1]) && IsCont(bs[2]) then
        var n := (b0 - 0xE0) * 0x1000 + (bs[1] as int - 0x80) * 0x40 + (bs[2] as int - 0x80);
        if 0x800 <= n && IsScalar(n) then Some((n as char, 3)) else None
      else None
    else if 0xF0 <= b0 < 0xF5 then
      if |bs| >= 4 && IsCont(bs[1]) && IsCont(bs[2]) && IsCont(bs[3]) then
        var n := (b0 - 0xF0) * 0x4_0000 + (bs[1] as int - 0x80) * 0x1000 + (bs[2] as int - 0x80) * 0x40 + (bs[3] as int - 0x80);
        if 0x1_0000 <= n < 0x11_0000 then Some((n as char, 4)) else None
      else None
    else None
  }

  /** Strict UTF-8 decoding of a whole byte string. */
  function Decode(bs: seq<Byte>): Option<string>
    decreases |bs|
  {
    if |bs| == 0 then Some("")
    else
      match DecodeFirst(bs)
      case None => None
      case Some((c, k)) =>
        match Decode(bs[k..])
        case None => None
        case Some(rest) => Some([c] + rest)
  }

  /** The decoder reads one encoded character back, whatever follows it. */
  lemma DecodeFirstEncodeChar(c: char, rest: seq<Byte>)
    ensures DecodeFirst(EncodeChar(c) + rest) == Some((c, |EncodeChar(c)|))
  {
    var n := c as int;
    if n < 0x80 {
    } else if n < 0x800 {
      DecodeFirstTwo(c, rest);
    } else if n < 0x1_0000 {
      DecodeFirstThree(c, rest);
    } else {
      DecodeFirstFour(c, rest);
    }
  }

  lemma DecodeFirstTwo(c: char, rest: seq<Byte>)
    requires 0x80 <= c as int < 0x800
    ensures DecodeFirst(EncodeChar(c) + rest) == Some((c, 2))
  {
    var n := c as int;
    var q, r := n / 0x40, n % 0x40;
    var bs := EncodeChar(c) + rest;
    assert bs[0] == 0xC0 + q && bs[1] == 0x80 + r;
    assert q * 0x40 + r == n;
  }

  lemma DecodeFirstThree(c: char, rest: seq<Byte>)
    requires 0x800 <= c as int < 0x1_0000
    ensures DecodeFirst(EncodeChar(c) + rest) == Some((c, 3))
  {
    var n := c as int;
    var q1, r := n / 0x40, n % 0x40;
    var q2, r1 := q1 / 0x40, q1 % 0x40;
    assert n / 0x1000 == q2;
    var bs := EncodeChar(c) + rest;
    assert bs[0] == 0xE0 + q2 && bs[1] == 0x80 + r1 && bs[2] == 0x80 + r;
    assert q2 * 0x1000 + r1 * 0x40 + r == n;
  }

  lemma DecodeFirstFour(c: char, rest: seq<Byte>)
    requires 0x1_0000 <= c as int
    ensures DecodeFirst(EncodeChar(c) + rest) == Some((c, 4))
  {
    var n := c as int;
    var q1, r := n / 0x40, n % 0x40;
    var q2, r1 := q1 / 0x40, q1 % 0x40;
    var q3, r2 := q2 / 0x40, q2 % 0x40;
    assert n / 0x1000 == q2;
    assert n / 0x4_0000 == q3;
    var bs := EncodeChar(c) + rest;
    assert bs[0] == 0xF0 + q3 && bs[1] == 0x80 + r2 && bs[2] == 0x80 + r1 && bs[3] == 0x80 + r;
    assert q3 * 0x4_0000 + r2 * 0x1000 + r1 * 0x40 + r == n;
  }

  /** Quotient and remainder by 64 are determined by any split of that shape. */
  lemma DivMod64(n: int, q: int, r: int)
    requires n == q * 0x40 + r && 0 <= r < 0x40
    ensures n / 0x40 == q && n % 0x40 == r
  {
  }

  /** Whatever the decoder accepts as one character is that character's
      shortest encoding. */
  lemma EncodeCharDecodeFirst(bs: seq<Byte>)
    requires |bs| > 0 && DecodeFirst(bs).Some?
    ensures EncodeChar(DecodeFirst(bs).value.0) == bs[..DecodeFirst(bs).value.1]
  {
    var b0: int := bs[0];
    if b0 < 0x80 {
    } else if b0 < 0xE0 {
      EncodeCharTwo(bs);
    } else if b0 < 0xF0 {
      EncodeCharThree(bs);
    } else {
      EncodeCharFour(bs);
    }
  }

  lemma EncodeCharTwo(bs: seq<Byte>)
    requires |bs| > 0 && DecodeFirst(bs).Some? && 0x80 <= bs[0] < 0xE0
    ensures EncodeChar(DecodeFirst(bs).value.0) == bs[..2]
  {
    var b0: int, b1: int := bs[0], bs[1];
    var n := DecodeFirst(bs).value.0 as int;
    assert n == (b0 - 0xC0) * 0x40 + (b1 - 0x80);
    DivMod64(n, b0 - 0xC0, b1 - 0x80);
  }

  lemma EncodeCharThree(bs: seq<Byte>)
    requires |bs| > 0 && DecodeFirst(bs).Some? && 0xE0 <= bs[0] < 0xF0
    ensures EncodeChar(DecodeFirst(bs).value.0) == bs[..3]
  {
    var b0: int, b1: int, b2: int := bs[0], bs[1], bs[2];
    var n := DecodeFirst(bs).value.0 as int;
    var q1 := (b0 - 0xE0) * 0x40 + (b1 - 0x80);
    assert n == q1 * 0x40 + (b2 - 0x80);
    DivMod64(n, q1, b2 - 0x80);
    DivMod64(q1, b0 - 0xE0, b1 - 0x80);
    assert n / 0x1000 == (n / 0x40) / 0x40;
    assert 0x800 <= n < 0x1_0000;
  }

  lemma EncodeCharFour(bs: seq<Byte>)
    requires |bs| > 0 && DecodeFirst(bs).Some? && 0xF0 <= bs[0]
    ensures EncodeChar(DecodeFirst(bs).value.0) == bs[..4]
  {
    var b0: int, b1: int, b2: int, b3: int := bs[0], bs[1], bs[2], bs[3];
    var n := DecodeFirst(bs).value.0 as int;
    var q2 := (b0 - 0xF0) * 0x40 + (b1 - 0x80);
    var q1 := q2 * 0x40 + (b2 - 0x80);
    assert n == q1 * 0x40 + (b3 - 0x80);
    DivMod64(n, q1, b3 - 0x80);
    DivMod64(q1, q2, b2 - 0x80);
    DivMod64(q2, b0 - 0xF0, b1 - 0x80);
    assert n / 0x1000 == (n / 0x40) / 0x40;
    assert n / 0x4_0000 == ((n / 0x40) / 0x40) / 0x40;
  }

  /** Round trip: decoding the UTF-8 form of a string gives the string back. */
  lemma {:induction false} DecodeEncode(s: string)
    ensures Decode(Encode(s)) == Some(s)
    decreases |s|
  {
    if |s| > 0 {
      var head := EncodeChar(s[0]);
      var tail := Encode(s[1..]);
      var bs := head + tail;
      assert Encode(s) == bs;
      DecodeFirstEncodeChar(s[0], tail);
      assert bs[|head|..] == tail;
      DecodeEncode(s[1..]);
      assert Decode(bs) == Some([s[0]] + s[1..]);
      assert [s[0]] + s[1..] == s;
    }
  }

  /** The decoder accepts only shortest forms: whatever it accepts is the
      encoding of what it returns. */
  lemma {:induction false} EncodeDecode(bs: seq<Byte>)
    requires Decode(bs).Some?
    ensures Encode(Decode(bs).value) == bs
    decreases |bs|
  {
    if |bs| > 0 {
      var c, k := DecodeStep(bs);
      var tail := Decode(bs[k..]).value;
      EncodeCharDecodeFirst(bs);
      EncodeDecode(bs[k..]);
      EncodeJoin(bs, k, c, tail);
    }
  }

  /** The encodings of a first character and of the rest, put together. */
  lemma EncodeJoin(bs: seq<Byte>, k: nat, c: char, tail: string)
    requires k <= |bs| && EncodeChar(c) == bs[..k] && Encode(tail) == bs[k..]
    ensures Encode([c] + tail) == bs
  {
    EncodeCons(c, tail);
    assert bs[..k] + bs[k..] == bs;
  }

  /** What the decoder does with the first character of an accepted string. */
  lemma DecodeStep(bs: seq<Byte>) returns (c: char, k: nat)
    requires |bs| > 0 && Decode(bs).Some?
    ensures DecodeFirst(bs) == Some((c, k)) && k <= |bs|
    ensures Decode(bs[k..]).Some? && Decode(bs).value == [c] + Decode(bs[k..]).value
  {
    c, k := DecodeFirst(bs).value.0, DecodeFirst(bs).value.1;
  }

  /** One character in front is encoded in front. */
  lemma EncodeCons(c: char, s: string)
    ensures Encode([c] + s) == EncodeChar(c) + Encode(s)
  {
    assert ([c] + s)[1..] == s;
  }

  /** Encoding distributes over concatenation. */
  lemma {:induction false} EncodeAppend(a: string, b: string)
    ensures Encode(a + b) == Encode(a) + Encode(b)
    decreases |a|
  {
    if |a| > 0 {
      assert (a + b)[0] == a[0] && (a + b)[1..] == a[1..] + b;
      EncodeAppend(a[1..], b);
    } else {
      assert a + b == b;
    }
  }
}
