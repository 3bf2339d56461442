/**
  Byte strings and the fixed-width integer fields of the transfer header.

  Both ends encode integers with the host's `sys.byteorder`, so the model takes
  the byte order as a parameter shared by sender and receiver.
 */
module Bytes {

  /** One element of a Python `bytes` object. */
  type byte = b: int | 0 <= b < 256

  /** The host byte order, `sys.byteorder`. */
  datatype ByteOrder = Little | Big

  /** 256 to the power `n`: one more than the largest value `n` bytes can hold. */
  function Pow256(n: nat): (r: nat)
    ensures r >= 1
  {
    if n == 0 then 1 else 256 * Pow256(n - 1)
  }

  /** `n` zero bytes, as `bytes(n)` builds them. */
  function Zeros(n: nat): (r: seq<byte>)
    ensures |r| == n
    ensures forall i :: 0 <= i < n ==> r[i] == 0
  {
    seq(n, _ => 0)
  }

  /** Python's `s[i:j]` for non-negative bounds: out-of-range bounds are clamped, never an error. */
  function Slice(s: seq<byte>, i: nat, j: nat): (r: seq<byte>)
    ensures j <= |s| && i <= j ==> r == s[i..j]
    ensures |s| <= i ==> r == []
    ensures i <= |s| <= j ==> r == s[i..]
  {
    var lo := if i < |s| then i else |s|;
    var hi := if j < |s| then j else |s|;
    if lo <= hi then s[lo..hi] else []
  }

  /** Little-endian reading: the first byte is the least significant. */
  function FromLittle(bs: seq<byte>): (n: nat)
    ensures n < Pow256(|bs|)
  {
    if |bs| == 0 then 0 else bs[0] + 256 * FromLittle(bs[1..])
  }

  /** Big-endian reading: the last byte is the least significant. */
  function FromBig(bs: seq<byte>): (n: nat)
    ensures n < Pow256(|bs|)
  {
    if |bs| == 0 then 0 else 256 * FromBig(bs[..|bs| - 1]) + bs[|bs| - 1]
  }

  /** `int.from_bytes(bs, order)`: the unsigned integer the bytes denote, for any length. */
  function FromBytes(bs: seq<byte>, order: ByteOrder): (n: nat)
    ensures n < Pow256(|bs|)
  {
    match order
    case Little => FromLittle(bs)
    case Big => FromBig(bs)
  }

  lemma DivBelow(n: nat, w: nat)
    requires w > 0 && n < Pow256(w)
    ensures n / 256 < Pow256(w - 1)
  {
  }

  function ToLittle(n: nat, width: nat): (r: seq<byte>)
    requires n < Pow256(width)
    ensures |r| == width
  {
    if width == 0 then []
    else
      DivBelow(n, width);
      [n % 256] + ToLittle(n / 256, width - 1)
  }

  function ToBig(n: nat, width: nat): (r: seq<byte>)
    requires n < Pow256(width)
    ensures |r| == width
  {
    if width == 0 then []
    else
      DivBelow(n, width);
      ToBig(n / 256, width - 1) + [n % 256]
  }

  /**
    `n.to_bytes(width, order)`. Python raises `OverflowError` when `n` does not
    fit; the sender never handles it, so fitting is the caller's obligation.
   */
  function ToBytes(n: nat, width: nat, order: ByteOrder): (r: seq<byte>)
    requires n < Pow256(width)
    ensures |r| == width
  {
    match order
    case Little => ToLittle(n, width)
    case Big => ToBig(n, width)
  }

  lemma {:induction false} FromToLittle(n: nat, width: nat)
    requires n < Pow256(width)
    ensures FromLittle(ToLittle(n, width)) == n
  {
    if width > 0 {
      DivBelow(n, width);
      var r := ToLittle(n, width);
      assert r[1..] == ToLittle(n / 256, width - 1);
      FromToLittle(n / 256, width - 1);
    }
  }

  lemma {:induction false} FromToBig(n: nat, width: nat)
    requires n < Pow256(width)
    ensures FromBig(ToBig(n, width)) == n
  {
    if width > 0 {
      DivBelow(n, width);
      var r := ToBig(n, width);
      assert r[..|r| - 1] == ToBig(n / 256, width - 1);
      FromToBig(n / 256, width - 1);
    }
  }

  /** Reading back an integer written with the same width and byte order returns it. */
  lemma FromToBytes(n: nat, width: nat, order: ByteOrder)
    requires n < Pow256(width)
    ensures FromBytes(ToBytes(n, width, order), order) == n
  {
    match order
    case Little => FromToLittle(n, width);
    case Big => FromToBig(n, width);
  }

  lemma {:induction false} ToFromLittle(bs: seq<byte>)
    ensures ToLittle(FromLittle(bs), |bs|) == bs
  {
    if |bs| > 0 {
      var n := FromLittle(bs);
      assert n % 256 == bs[0] && n / 256 == FromLittle(bs[1..]);
      ToFromLittle(bs[1..]);
    }
  }

  lemma {:induction false} ToFromBig(bs: seq<byte>)
    ensures ToBig(FromBig(bs), |bs|) == bs
  {
    if |bs| > 0 {
      var n := FromBig(bs);
      var front := bs[..|bs| - 1];
      assert n % 256 == bs[|bs| - 1] && n / 256 == FromBig(front);
      ToFromBig(front);
    }
  }

  /** Conversely, every byte string of a given width is the encoding of the integer it denotes. */
  lemma ToFromBytes(bs: seq<byte>, order: ByteOrder)
    ensures ToBytes(FromBytes(bs, order), |bs|, order) == bs
  {
    match order
    case Little => ToFromLittle(bs);
    case Big => ToFromBig(bs);
  }

  /** The concatenation of chunks in order, as repeated `write`/`update` calls accumulate them. */
  function Flatten(chunks: seq<seq<byte>>): seq<byte>
  {
    if |chunks| == 0 then [] else Flatten(chunks[..|chunks| - 1]) + chunks[|chunks| - 1]
  }

  lemma FlattenAppend(chunks: seq<seq<byte>>, c: seq<byte>)
    ensures Flatten(chunks + [c]) == Flatten(chunks) + c
  {
    assert (chunks + [c])[..|chunks|] == chunks;
  }

  /** Flattening distributes over concatenation of chunk lists. */
  lemma {:induction false} FlattenConcat(a: seq<seq<byte>>, b: seq<seq<byte>>)
    ensures Flatten(a + b) == Flatten(a) + Flatten(b)
  {
    if |b| == 0 {
      assert a + b == a;
    } else {
      var front := b[..|b| - 1];
      assert a + b == (a + front) + [b[|b| - 1]];
      FlattenAppend(a + front, b[|b| - 1]);
      FlattenConcat(a, front);
      assert b == front + [b[|b| - 1]];
      FlattenAppend(front, b[|b| - 1]);
    }
  }
}
