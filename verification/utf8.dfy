/**
  UTF-8, as Python's `str.encode('utf-8')` and strict `bytes.decode('utf-8')`
  apply it to file names. A Dafny `char` is a Unicode scalar value, so every
  string of the model encodes; a Python `str` may also hold lone surrogates,
  which `str.encode` rejects and which the model cannot represent. Decoding
  rejects exactly the ill-formed byte strings (overlong forms, surrogates,
  values above U+10FFFF, truncated sequences).
 */
module Utf8 {
  import opened Wrappers
  import opened Bytes

  /** Every character is below U+0080, so it encodes to one byte. */
  predicate IsAscii(s: string)
  {
    forall i :: 0 <= i < |s| ==> (s[i] as int) < 0x80
  }

  predicate IsContinuation(b: byte)
  {
    0x80 <= b < 0xC0
  }

  /** The one to four bytes encoding one scalar value. */
  function EncodeChar(c: char): (r: seq<byte>)
    ensures 1 <= |r| <= 4
    ensures |r| == 1 <==> (c as int) < 0x80
  {
    var cp := c as int;
    var q1 := cp / 64;
    var q2 := q1 / 64;
    var q3 := q2 / 64;
    if cp < 0x80 then [cp]
    else if cp < 0x800 then [0xC0 + q1, 0x80 + cp % 64]
    else if cp < 0x10000 then [0xE0 + q2, 0x80 + q1 % 64, 0x80 + cp % 64]
    else [0xF0 + q3, 0x80 + q2 % 64, 0x80 + q1 % 64, 0x80 + cp % 64]
  }

  /** `bytes(s, 'utf-8')`. */
  function Encode(s: string): (r: seq<byte>)
    ensures |r| >= |s|
  {
    if |s| == 0 then [] else EncodeChar(s[0]) + Encode(s[1..])
  }

  /**
    Decodes the scalar value at the front of `bs`, with the number of bytes it
    occupies; `None` where the strict decoder reports an error.
   */
  function DecodeFirst(bs: seq<byte>): (r: Option<(char, nat)>)
    requires |bs| > 0
    ensures r.Some? ==> 1 <= r.value.1 <= |bs|
  {
    var b0: int := bs[0];
    if b0 < 0x80 then Some((b0 as char, 1))
    else if 0xC2 <= b0 < 0xE0 then
      if |bs| < 2 || !IsContinuation(bs[1]) then None
      else Some((Payload2(b0, bs[1]) as char, 2))
    else if 0xE0 <= b0 < 0xF0 then
      if |bs| < 3 || !IsContinuation(bs[1]) || !IsContinuation(bs[2]) then None
      else
        var cp := Payload3(b0, bs[1], bs[2]);
        if cp < 0x800 || 0xD800 <= cp < 0xE000 then None else Some((cp as char, 3))
    else if 0xF0 <= b0 < 0xF5 then
      if |bs| < 4 || !IsContinuation(bs[1]) || !IsContinuation(bs[2]) || !IsContinuation(bs[3]) then None
      else
        var cp := Payload4(b0, bs[1], bs[2], bs[3]);
        if cp < 0x10000 || 0x110000 <= cp then None else Some((cp as char, 4))
    else None
  }

  /** The scalar value carried by a two-byte sequence: five bits of the lead byte, six of the continuation. */
  function Payload2(b0: int, b1: int): int
  {
    (b0 - 0xC0) * 64 + (b1 - 0x80)
  }

  function Payload3(b0: int, b1: int, b2: int): int
  {
    Payload2(b0 - 0x20, b1) * 64 + (b2 - 0x80)
  }

  function Payload4(b0: int, b1: int, b2: int, b3: int): int
  {
    Payload3(b0 - 0x10, b1, b2) * 64 + (b3 - 0x80)
  }

  /** `bs.decode('utf-8')`; `None` where Python raises `UnicodeDecodeError`. */
  function Decode(bs: seq<byte>): Option<string>
    decreases |bs|
  {
    if |bs| == 0 then Some([])
    else
      match DecodeFirst(bs)
      case None => None
      case Some((c, n)) =>
        match Decode(bs[n..])
        case None => None
        case Some(rest) => Some([c] + rest)
  }

  lemma DecodeFirstEncodeChar(c: char, rest: seq<byte>)
    ensures DecodeFirst(EncodeChar(c) + rest) == Some((c, |EncodeChar(c)|))
  {
    var cp := c as int;
    var q1 := cp / 64;
    var q2 := q1 / 64;
    var q3 := q2 / 64;
    assert cp == q1 * 64 + cp % 64;
    assert q1 == q2 * 64 + q1 % 64;
    assert q2 == q3 * 64 + q2 % 64;
  }

  /** If `x == q * 64 + r` with `r` a six-bit value, then `q` and `r` are the quotient and remainder. */
  lemma SplitSixBits(x: int, q: int, r: int)
    requires x == q * 64 + r && 0 <= r < 64
    ensures x / 64 == q && x % 64 == r
  {
  }

  lemma EncodeCharDecodeFirst(bs: seq<byte>)
    requires |bs| > 0 && DecodeFirst(bs).Some?
    ensures EncodeChar(DecodeFirst(bs).value.0) == bs[..DecodeFirst(bs).value.1]
  {
    var b0: int := bs[0];
    var n := DecodeFirst(bs).value.1;
    var cp := DecodeFirst(bs).value.0 as int;
    if n == 2 {
      SplitSixBits(cp, b0 - 0xC0, bs[1] - 0x80);
    } else if n == 3 {
      var q1 := Payload2(b0 - 0x20, bs[1]);
      SplitSixBits(cp, q1, bs[2] - 0x80);
      SplitSixBits(q1, b0 - 0xE0, bs[1] - 0x80);
    } else if n == 4 {
      var q2 := Payload2(b0 - 0x30, bs[1]);
      var q1 := Payload3(b0 - 0x10, bs[1], bs[2]);
      SplitSixBits(cp, q1, bs[3] - 0x80);
      SplitSixBits(q1, q2, bs[2] - 0x80);
      SplitSixBits(q2, b0 - 0xF0, bs[1] - 0x80);
    }
  }

  /** Decoding an encoded string gives it back. */
  lemma {:induction false} DecodeEncode(s: string)
    ensures Decode(Encode(s)) == Some(s)
  {
    if |s| > 0 {
      var e := EncodeChar(s[0]);
      var rest := Encode(s[1..]);
      DecodeFirstEncodeChar(s[0], rest);
      assert (e + rest)[|e|..] == rest;
      DecodeEncode(s[1..]);
      assert [s[0]] + s[1..] == s;
    }
  }

  /** A byte string that decodes is exactly the encoding of what it decodes to. */
  lemma {:induction false} EncodeDecode(bs: seq<byte>)
    requires Decode(bs).Some?
    ensures Encode(Decode(bs).value) == bs
    decreases |bs|
  {
    if |bs| > 0 {
      var first := DecodeFirst(bs).value;
      EncodeCharDecodeFirst(bs);
      EncodeDecode(bs[first.1..]);
      var s := Decode(bs).value;
      assert s[0] == first.0 && s[1..] == Decode(bs[first.1..]).value;
      assert bs == bs[..first.1] + bs[first.1..];
    }
  }

  /** Encoding is byte-for-byte the identity exactly on ASCII strings; otherwise it is strictly longer. */
  lemma {:induction false} EncodedLength(s: string)
    ensures IsAscii(s) ==> |Encode(s)| == |s| && forall i :: 0 <= i < |s| ==> Encode(s)[i] == s[i] as int
    ensures !IsAscii(s) ==> |Encode(s)| > |s|
  {
    if |s| > 0 {
      EncodedLength(s[1..]);
      if !IsAscii(s) && IsAscii(s[1..]) {
        forall i | 1 <= i < |s|
          ensures (s[i] as int) < 0x80
        {
          assert s[i] == s[1..][i - 1];
        }
        assert (s[0] as int) >= 0x80;
      }
    }
  }
}
