/**
  Sender and server together: a header, the body split into non-empty
  reads, and a trailer, delivered as successive reads. Each of the three
  parts arrives in reads of its own: the header fills the first read and the
  last body read ends at the body's last byte. A read that merges the end of
  the body with the trailer is the overshoot of `Session.OvershootPossible`.
 */
module Transfer {
  import opened Wrappers
  import opened Bytes
  import opened Checksum
  import opened Header
  import opened Session
  import Utf8

  /** Reads that deliver `chunks` one per read. */
  function DataEvents(chunks: seq<seq<byte>>): (r: seq<ReadEvent>)
    ensures |r| == |chunks|
  {
    seq(|chunks|, i requires 0 <= i < |chunks| => Data(chunks[i]))
  }

  predicate AllNonEmpty(chunks: seq<seq<byte>>)
  {
    forall i :: 0 <= i < |chunks| ==> |chunks[i]| > 0
  }

  /** The stream as the server reads it: the header, the body chunks, the trailer, each read on its own. */
  function Stream(header: seq<byte>, chunks: seq<seq<byte>>, trailer: seq<byte>): seq<ReadEvent>
  {
    [Data(header)] + DataEvents(chunks) + [Data(trailer)]
  }

  lemma FlattenPrefixShorter(chunks: seq<seq<byte>>, m: nat)
    requires AllNonEmpty(chunks) && m < |chunks|
    ensures |Flatten(chunks[..m])| < |Flatten(chunks)|
  {
    assert chunks == chunks[..m] + ([chunks[m]] + chunks[m + 1..]);
    FlattenConcat(chunks[..m], [chunks[m]] + chunks[m + 1..]);
    FlattenConcat([chunks[m]], chunks[m + 1..]);
    FlattenAppend([], chunks[m]);
  }

  lemma StreamEvents(header: seq<byte>, chunks: seq<seq<byte>>, trailer: seq<byte>)
    ensures var events := Stream(header, chunks, trailer);
      && EventAt(events, 0) == Data(header)
      && (forall j :: 1 <= j <= |chunks| ==> EventAt(events, j) == Data(chunks[j - 1]))
      && EventAt(events, |chunks| + 1) == Data(trailer)
  {
  }

  /**
    Chunks that arrived in order, each read while short of `fileSize`, and
    ending only where a read failed or the size was reached, are exactly the
    non-empty chunks that were sent.
   */
  lemma ExactChunks(got: seq<seq<byte>>, header: seq<byte>, chunks: seq<seq<byte>>, trailer: seq<byte>, fileSize: nat)
    requires AllNonEmpty(chunks) && |Flatten(chunks)| == fileSize
    requires ArrivedInOrder(got, Stream(header, chunks, trailer))
    requires ReadWhileShort(got, fileSize)
    requires |Flatten(got)| < fileSize ==> !Delivers(EventAt(Stream(header, chunks, trailer), |got| + 1))
    ensures got == chunks
  {
    StreamEvents(header, chunks, trailer);
    var m := |got|;
    if m < |chunks| {
      SentPrefix(got, header, chunks, trailer, m);
      FlattenPrefixShorter(chunks, m);
      NextSentDelivers(header, chunks, trailer, m);
      assert false;
    }
    if m > |chunks| {
      SentPrefix(got, header, chunks, trailer, |chunks|);
      ShortBefore(got, fileSize, |chunks|);
      assert false;
    }
    SentPrefix(got, header, chunks, trailer, m);
  }

  lemma NextSentDelivers(header: seq<byte>, chunks: seq<seq<byte>>, trailer: seq<byte>, m: nat)
    requires AllNonEmpty(chunks) && m < |chunks|
    ensures Delivers(EventAt(Stream(header, chunks, trailer), m + 1))
  {
    StreamEvents(header, chunks, trailer);
  }

  lemma ShortBefore(got: seq<seq<byte>>, fileSize: nat, k: nat)
    requires ReadWhileShort(got, fileSize) && k < |got|
    ensures |Flatten(got[..k])| < fileSize
  {
  }

  lemma SentChunkEvent(header: seq<byte>, chunks: seq<seq<byte>>, trailer: seq<byte>, i: nat)
    requires i < |chunks|
    ensures EventAt(Stream(header, chunks, trailer), i + 1) == Data(chunks[i])
  {
    var events := Stream(header, chunks, trailer);
    assert events[i + 1] == DataEvents(chunks)[i];
  }

  /** The first `n` chunks that arrived are the first `n` that were sent. */
  lemma SentPrefix(got: seq<seq<byte>>, header: seq<byte>, chunks: seq<seq<byte>>, trailer: seq<byte>, n: nat)
    requires n <= |got| && n <= |chunks|
    requires ArrivedInOrder(got, Stream(header, chunks, trailer))
    ensures got[..n] == chunks[..n]
    ensures n == |got| ==> got == chunks[..n]
    ensures n == |chunks| ==> Flatten(got[..n]) == Flatten(chunks)
  {
    var events := Stream(header, chunks, trailer);
    forall i | 0 <= i < n
      ensures got[i] == chunks[i]
    {
      SentChunkEvent(header, chunks, trailer, i);
      assert Delivers(EventAt(events, i + 1)) && got[i] == EventAt(events, i + 1).bytes;
    }
    assert got[..n] == chunks[..n];
    if n == |chunks| {
      assert chunks[..n] == chunks;
    }
  }

  /**
    A header that decodes to `info`, exactly `info.fileSize` body bytes in
    non-empty reads of any size, and a trailer: the server records exactly
    those chunks, writes exactly those bytes, and compares the trailer with
    the digest of the body.
   */
  lemma DeliveredIntact(c: Client, header: seq<byte>, info: FileInfo, chunks: seq<seq<byte>>, trailer: seq<byte>,
                        order: ByteOrder, digest: Digest)
    requires |header| > 0 && DecodeHeader(header, order) == Success(info)
    requires AllNonEmpty(chunks) && |Flatten(chunks)| == info.fileSize
    requires |trailer| > 0
    ensures var s := HandleClientConnection(c, Stream(header, chunks, trailer), order, digest);
      && s.info == Some(info)
      && s.chunks == chunks
      && s.file == Flatten(chunks)
      && s.outcome == Checked(trailer == digest(Flatten(chunks)))
      && s.readsDone == |chunks| + 2
      && s.client.finished
  {
    var events := Stream(header, chunks, trailer);
    StreamEvents(header, chunks, trailer);
    assert HandleClientConnection(c, events, order, digest) == ReceiveFile(c, info, events, digest);
    var s := ReceiveFile(c, info, events, digest);
    ExactChunks(s.chunks, header, chunks, trailer, info.fileSize);
  }

  /**
    End to end, for an ASCII name and a file size that fits: however the body
    is split into reads that end at its last byte, the server parses back the
    size and name, writes exactly the file's bytes and reports the checksum correct.
   */
  lemma AsciiTransferVerified(data: seq<byte>, filename: string, chunks: seq<seq<byte>>, order: ByteOrder, digest: Digest)
    requires |data| < SizeLimit
    requires Utf8.IsAscii(filename) && |filename| <= MaxFilenameSize
    requires AllNonEmpty(chunks) && Flatten(chunks) == data
    ensures var header := EncodeHeader(|data|, filename, order).value;
      var s := HandleClientConnection(NewClient(0), Stream(header, chunks, digest(data)), order, digest);
      && s.info == Some(FileInfo(|data|, filename))
      && s.file == data
      && s.outcome == Checked(true)
  {
    AsciiRoundTrip(|data|, filename, order);
    var header := EncodeHeader(|data|, filename, order).value;
    DeliveredIntact(NewClient(0), header, FileInfo(|data|, filename), chunks, digest(data), order, digest);
  }

  /**
    With the length field counting encoded bytes, the same end-to-end result
    holds for every name whose encoding fits, multi-byte names included.
   */
  lemma ByteLengthTransferVerified(data: seq<byte>, filename: string, chunks: seq<seq<byte>>, order: ByteOrder, digest: Digest)
    requires |data| < SizeLimit
    requires |Utf8.Encode(filename)| <= MaxFilenameSize
    requires AllNonEmpty(chunks) && Flatten(chunks) == data
    ensures var header := EncodeHeaderByBytes(|data|, filename, order).value;
      var s := HandleClientConnection(NewClient(0), Stream(header, chunks, digest(data)), order, digest);
      && s.info == Some(FileInfo(|data|, filename))
      && s.file == data
      && s.outcome == Checked(true)
  {
    ByteLengthRoundTrip(|data|, filename, order);
    var header := EncodeHeaderByBytes(|data|, filename, order).value;
    DeliveredIntact(NewClient(0), header, FileInfo(|data|, filename), chunks, digest(data), order, digest);
  }

  /** The same transfer with a trailer other than the body's digest is reported invalid; the file is still written whole. */
  lemma WrongTrailerInvalid(data: seq<byte>, filename: string, chunks: seq<seq<byte>>, trailer: seq<byte>, order: ByteOrder, digest: Digest)
    requires |data| < SizeLimit
    requires Utf8.IsAscii(filename) && |filename| <= MaxFilenameSize
    requires AllNonEmpty(chunks) && Flatten(chunks) == data
    requires |trailer| > 0 && trailer != digest(data)
    ensures var header := EncodeHeader(|data|, filename, order).value;
      var s := HandleClientConnection(NewClient(0), Stream(header, chunks, trailer), order, digest);
      && s.file == data
      && s.outcome == Checked(false)
      && s.client.finished
  {
    AsciiRoundTrip(|data|, filename, order);
    var header := EncodeHeader(|data|, filename, order).value;
    DeliveredIntact(NewClient(0), header, FileInfo(|data|, filename), chunks, trailer, order, digest);
  }

  /** The verdict and the file depend only on the bytes delivered, not on how reads split them. */
  lemma VerdictIndependentOfChunking(c: Client, header: seq<byte>, info: FileInfo, chunks1: seq<seq<byte>>,
                                     chunks2: seq<seq<byte>>, trailer: seq<byte>, order: ByteOrder, digest: Digest)
    requires |header| > 0 && DecodeHeader(header, order) == Success(info)
    requires AllNonEmpty(chunks1) && AllNonEmpty(chunks2) && Flatten(chunks1) == Flatten(chunks2)
    requires |Flatten(chunks1)| == info.fileSize && |trailer| > 0
    ensures var s1 := HandleClientConnection(c, Stream(header, chunks1, trailer), order, digest);
      var s2 := HandleClientConnection(c, Stream(header, chunks2, trailer), order, digest);
      s1.outcome == s2.outcome && s1.file == s2.file && s1.client == s2.client
  {
    DeliveredIntact(c, header, info, chunks1, trailer, order, digest);
    DeliveredIntact(c, header, info, chunks2, trailer, order, digest);
  }

  /**
    A peer that closes after the header of a non-empty file: the handler
    stops at the first body read, with nothing written, the socket closed
    once and the client finished.
   */
  lemma DisconnectAfterHeader(c: Client, header: seq<byte>, info: FileInfo, order: ByteOrder, digest: Digest)
    requires |header| > 0 && DecodeHeader(header, order) == Success(info)
    requires info.fileSize > 0
    ensures var s := HandleClientConnection(c, [Data(header), Empty], order, digest);
      && s.outcome == BodyLost
      && s.file == []
      && s.readsDone == 2
      && s.client.finished && s.client.closes == c.closes + 1
  {
    var events := [Data(header), Empty];
    var s := HandleClientConnection(c, events, order, digest);
    assert !Delivers(EventAt(events, 1));
    assert ArrivedInOrder(s.chunks, events);
    assert |s.chunks| == 0;
  }
}
