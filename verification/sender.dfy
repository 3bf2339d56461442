/**
  The client's `send_file`: check the name length, send the header, send
  the file in reads of at most 1024 bytes while feeding each one to the
  digest, then send the 32-byte hex digest.

  The file is its byte content `data` and the socket is the byte stream
  `sent`; `sock.send` is taken to send everything it is given.
 */
module Sender {
  import opened Bytes
  import opened Checksum
  import opened Header

  /** `f.read(1024)`. */
  const ReadSize := 1024

  /** Every read is non-empty and at most `ReadSize` bytes, and all but the last are full. */
  predicate WellSized(batches: seq<seq<byte>>)
  {
    && (forall i :: 0 <= i < |batches| ==> 0 < |batches[i]| <= ReadSize)
    && (forall i :: 0 <= i < |batches| - 1 ==> |batches[i]| == ReadSize)
  }

  /** Appending a non-empty read after a full one keeps the reads well sized. */
  lemma AppendRead(batches: seq<seq<byte>>, batch: seq<byte>)
    requires WellSized(batches) && 0 < |batch| <= ReadSize
    requires |batches| > 0 ==> |batches[|batches| - 1]| == ReadSize
    ensures WellSized(batches + [batch])
  {
    var b := batches + [batch];
    forall i | 0 <= i < |b|
      ensures 0 < |b[i]| <= ReadSize && (i < |b| - 1 ==> |b[i]| == ReadSize)
    {
      if i < |batches| {
        assert b[i] == batches[i];
      }
    }
  }

  /**
    Returns everything written to the socket and the file reads that made up
    the body. A name longer than `MaxFilenameSize` characters sends nothing.
   */
  method SendFile(data: seq<byte>, filename: string, order: ByteOrder, digest: Digest)
    returns (sent: seq<byte>, batches: seq<seq<byte>>)
    requires |data| < SizeLimit
    ensures |filename| > MaxFilenameSize ==> sent == [] && batches == []
    ensures |filename| <= MaxFilenameSize ==>
      sent == EncodeHeader(|data|, filename, order).value + data + digest(data)
    ensures |filename| <= MaxFilenameSize ==> Flatten(batches) == data
    ensures forall i :: 0 <= i < |batches| ==> 0 < |batches[i]| <= ReadSize
    ensures forall i :: 0 <= i < |batches| - 1 ==> |batches[i]| == ReadSize
  {
    var header := EncodeHeader(|data|, filename, order);
    if header.Failure? {
      return [], [];
    }
    var body;
    body, batches := SendBody(data);
    sent := header.value + body + digest(body);
  }

  /**
    The read loop: read up to `ReadSize` bytes until a read comes back empty,
    feeding each read to the digest and to the socket. Returns the bytes sent
    (which are also the digest's input) and the reads.
   */
  method SendBody(data: seq<byte>) returns (body: seq<byte>, batches: seq<seq<byte>>)
    ensures body == data && Flatten(batches) == data
    ensures WellSized(batches)
  {
    body := [];
    batches := [];
    var pos := 0;
    while true
      invariant 0 <= pos <= |data|
      invariant body == data[..pos] && Flatten(batches) == body
      invariant WellSized(batches)
      invariant |batches| > 0 && pos < |data| ==> |batches[|batches| - 1]| == ReadSize
      decreases |data| - pos
    {
      var batch := data[pos..if pos + ReadSize < |data| then pos + ReadSize else |data|];
      if |batch| <= 0 {
        break;
      }
      FlattenAppend(batches, batch);
      AppendRead(batches, batch);
      assert data[..pos + |batch|] == data[..pos] + batch;
      body := body + batch;
      batches := batches + [batch];
      pos := pos + |batch|;
    }
    assert body == data;
  }
}
