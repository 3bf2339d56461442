/**
  The digest both ends compute over the body: MD5 rendered by `hexdigest()`
  and taken as UTF-8 bytes. Its internals are not modelled; a session takes
  the digest as a function parameter, so any function with this signature
  stands for it. Because the function is applied to the bytes fed so far,
  the value never depends on how those bytes were split into `update` calls.
 */
module Checksum {
  import opened Bytes

  /** Length of the hex digest on the wire. */
  const DigestSize := 32

  /** A lower-case hexadecimal digit in ASCII, as `hexdigest()` writes them. */
  predicate IsHexDigit(b: byte)
  {
    0x30 <= b <= 0x39 || 0x61 <= b <= 0x66
  }

  predicate IsHexDigest(s: seq<byte>)
  {
    |s| == DigestSize && forall i :: 0 <= i < |s| ==> IsHexDigit(s[i])
  }

  /** `bytes(md5.hexdigest(), 'utf-8')`: thirty-two lower-case hex digits. */
  type HexDigest = s: seq<byte> | IsHexDigest(s) witness seq(32, _ => 0x30)

  /** The digest function, from everything fed to the hash to its hex rendering. */
  type Digest = seq<byte> -> HexDigest
}
