/**
  The fixed-size transfer header: an 8-byte file size, a 4-byte name length,
  and the name padded with zero bytes to `MaxFilenameSize`. The sender builds
  it in `send_file`; the server slices the fields back out of its first read.
 */
module Header {
  import opened Wrappers
  import opened Bytes
  import Utf8

  /** `MAX_FILENAME_SIZE`, the same constant on both ends. */
  const MaxFilenameSize := 4096

  /** Bytes the server asks for in its first read: `MAX_FILENAME_SIZE + 12`. */
  const HeaderSize := MaxFilenameSize + 12

  /** Largest file size the 8-byte field can carry. */
  const SizeLimit := Pow256(8)

  datatype FileInfo = FileInfo(fileSize: nat, filename: string)

  /** The sender's only check: a name longer than `MAX_FILENAME_SIZE` characters. */
  datatype EncodeError = NameTooLong

  /** The server's only failure while parsing: the name bytes are not UTF-8. */
  datatype DecodeError = NameNotUtf8

  /**
    The header as `send_file` builds it. Both the length field and the amount
    of padding use the character count `len(filename)`, not the encoded length.
   */
  function EncodeHeader(fileSize: nat, filename: string, order: ByteOrder): (r: Result<seq<byte>, EncodeError>)
    requires fileSize < SizeLimit
    ensures r.Success? <==> |filename| <= MaxFilenameSize
    ensures r.Success? ==>
      var name := Utf8.Encode(filename);
      && |r.value| == HeaderSize + |name| - |filename|
      && FromBytes(r.value[..8], order) == fileSize
      && FromBytes(r.value[8..12], order) == |filename|
      && r.value[12..12 + |name|] == name
      && forall i :: 12 + |name| <= i < |r.value| ==> r.value[i] == 0
  {
    if |filename| > MaxFilenameSize then Failure(NameTooLong)
    else
      var sizeField := ToBytes(fileSize, 8, order);
      var lengthField := ToBytes(|filename|, 4, order);
      FromToBytes(fileSize, 8, order);
      FromToBytes(|filename|, 4, order);
      var h := sizeField + lengthField + Utf8.Encode(filename) + Zeros(MaxFilenameSize - |filename|);
      assert h[..8] == sizeField && h[8..12] == lengthField;
      Success(h)
  }

  /**
    The server's parse of its first read `info`, with Python's slicing: a read
    shorter than a header yields shorter fields rather than an error, and a
    length field larger than the read takes the name up to the end of it.
   */
  function DecodeHeader(info: seq<byte>, order: ByteOrder): (r: Result<FileInfo, DecodeError>)
    ensures r.Success? ==> r.value.fileSize == FromBytes(Slice(info, 0, 8), order) < SizeLimit
    ensures r.Success? <==> Utf8.Decode(Slice(info, 12, 12 + FromBytes(Slice(info, 8, 12), order))).Some?
    ensures r.Success? ==>
      Utf8.Encode(r.value.filename) == Slice(info, 12, 12 + FromBytes(Slice(info, 8, 12), order))
  {
    var fileSize := FromBytes(Slice(info, 0, 8), order);
    var nameLength := FromBytes(Slice(info, 8, 12), order);
    var nameBytes := Slice(info, 12, 12 + nameLength);
    assert Pow256(|Slice(info, 0, 8)|) <= SizeLimit by { PowMonotone(|Slice(info, 0, 8)|, 8); }
    match Utf8.Decode(nameBytes)
    case None => Failure(NameNotUtf8)
    case Some(name) =>
      Utf8.EncodeDecode(nameBytes);
      Success(FileInfo(fileSize, name))
  }

  lemma {:induction false} PowMonotone(a: nat, b: nat)
    requires a <= b
    ensures Pow256(a) <= Pow256(b)
  {
    if a < b {
      PowMonotone(a, b - 1);
    }
  }

  /**
    Round trip: with the same byte order on both ends, a file size that fits
    in 8 bytes and an ASCII name of at most `MaxFilenameSize` characters, the
    header is exactly `HeaderSize` bytes and the server parses back the size and name.
   */
  lemma AsciiRoundTrip(fileSize: nat, filename: string, order: ByteOrder)
    requires fileSize < SizeLimit
    requires Utf8.IsAscii(filename) && |filename| <= MaxFilenameSize
    ensures EncodeHeader(fileSize, filename, order).Success?
    ensures |EncodeHeader(fileSize, filename, order).value| == HeaderSize
    ensures DecodeHeader(EncodeHeader(fileSize, filename, order).value, order) == Success(FileInfo(fileSize, filename))
  {
    var h := EncodeHeader(fileSize, filename, order).value;
    Utf8.EncodedLength(filename);
    var name := Utf8.Encode(filename);
    assert Slice(h, 12, 12 + FromBytes(Slice(h, 8, 12), order)) == name;
    Utf8.DecodeEncode(filename);
  }

  /**
    A name with a multi-byte character makes the header longer than
    `HeaderSize`, and its length field no longer equals the name's encoded length.
   */
  lemma MultiByteHeader(fileSize: nat, filename: string, order: ByteOrder)
    requires fileSize < SizeLimit
    requires !Utf8.IsAscii(filename) && |filename| <= MaxFilenameSize
    ensures |EncodeHeader(fileSize, filename, order).value| > HeaderSize
    ensures FromBytes(EncodeHeader(fileSize, filename, order).value[8..12], order) != |Utf8.Encode(filename)|
  {
    Utf8.EncodedLength(filename);
  }

  /**
    Counterexample for the character-count length field: the one-character
    name "é" (two bytes in UTF-8) gets length field 1, so the server takes
    the lone lead byte 0xC3 as the name and its decode fails.
   */
  lemma MultiByteNameNotRecovered(order: ByteOrder)
    ensures EncodeHeader(0, "é", order).Success?
    ensures DecodeHeader(EncodeHeader(0, "é", order).value, order) == Failure(NameNotUtf8)
    ensures DecodeHeader(EncodeHeader(0, "é", order).value[..HeaderSize], order) == Failure(NameNotUtf8)
  {
    var h := EncodeHeader(0, "é", order).value;
    var name := Utf8.Encode("é");
    assert name == [0xC3, 0xA9];
    assert h[12] == 0xC3;
    assert Slice(h, 12, 13) == [0xC3];
    var prefix := h[..HeaderSize];
    assert prefix[8..12] == h[8..12];
    assert Slice(prefix, 8, 12) == h[8..12];
    assert Slice(prefix, 12, 13) == [0xC3];
    assert Utf8.DecodeFirst([0xC3]) == None;
  }

  /**
    The silent half of the same defect: the two-character name "éé" (four
    bytes) gets length field 2, so the server takes the first two bytes, which
    decode without error to "é", and opens the wrong file.
   */
  lemma MultiByteNameMisread(order: ByteOrder)
    ensures EncodeHeader(0, "éé", order).Success?
    ensures DecodeHeader(EncodeHeader(0, "éé", order).value, order) == Success(FileInfo(0, "é"))
    ensures DecodeHeader(EncodeHeader(0, "éé", order).value[..HeaderSize], order) == Success(FileInfo(0, "é"))
  {
    var h := EncodeHeader(0, "éé", order).value;
    assert Utf8.Encode("é") == [0xC3, 0xA9];
    assert Utf8.Encode("éé") == [0xC3, 0xA9] + Utf8.Encode("é");
    assert h[12..16] == [0xC3, 0xA9, 0xC3, 0xA9];
    assert Slice(h, 12, 14) == Utf8.Encode("é");
    var prefix := h[..HeaderSize];
    assert prefix[..8] == h[..8] && prefix[8..12] == h[8..12];
    assert Slice(prefix, 0, 8) == h[..8] && Slice(prefix, 8, 12) == h[8..12];
    assert Slice(prefix, 12, 14) == Utf8.Encode("é");
    Utf8.DecodeEncode("é");
  }

  /**
    The header with the length field and padding computed from the encoded
    name, which is what the server's parse expects.
   */
  function EncodeHeaderByBytes(fileSize: nat, filename: string, order: ByteOrder): (r: Result<seq<byte>, EncodeError>)
    requires fileSize < SizeLimit
    ensures r.Success? <==> |Utf8.Encode(filename)| <= MaxFilenameSize
    ensures r.Success? ==> |r.value| == HeaderSize
  {
    var name := Utf8.Encode(filename);
    if |name| > MaxFilenameSize then Failure(NameTooLong)
    else Success(ToBytes(fileSize, 8, order) + ToBytes(|name|, 4, order) + name + Zeros(MaxFilenameSize - |name|))
  }

  /** With the encoded length on the wire, every name that fits round-trips, multi-byte or not. */
  lemma ByteLengthRoundTrip(fileSize: nat, filename: string, order: ByteOrder)
    requires fileSize < SizeLimit
    requires |Utf8.Encode(filename)| <= MaxFilenameSize
    ensures DecodeHeader(EncodeHeaderByBytes(fileSize, filename, order).value, order) == Success(FileInfo(fileSize, filename))
  {
    var name := Utf8.Encode(filename);
    var sizeField := ToBytes(fileSize, 8, order);
    var lengthField := ToBytes(|name|, 4, order);
    var h := EncodeHeaderByBytes(fileSize, filename, order).value;
    assert h[..8] == sizeField && h[8..12] == lengthField && h[12..12 + |name|] == name;
    FromToBytes(fileSize, 8, order);
    FromToBytes(|name|, 4, order);
    Utf8.DecodeEncode(filename);
  }
}
