/**
  The server's per-connection protocol, `Client.handle_client_connection`:
  read the header, read body chunks until the declared size is reached,
  read the 32-byte checksum and compare it with the digest of the body.

  Socket reads are an input sequence of read events. A read past the end of
  that sequence is a `Timeout`: nothing more arrives, so `wait_for` expires.
  The file being written is the append-only byte sequence `file`, and the
  digest input is the byte sequence `hashed`.
 */
module Session {
  import opened Wrappers
  import opened Bytes
  import opened Checksum
  import opened Header
  import Utf8

  /** Largest read in the body loop, `receive_async(1024, loop)`. */
  const BodyChunkSize := 1024

  /**
    What one `sock_recv` under `wait_for` produces: some bytes, a timeout, or
    a zero-length read because the peer closed. `Empty` names that last case;
    `Data([])` is the same zero-length read written as data, kept so that any
    byte sequence is a read event without a side condition. `receive_async`
    treats the two alike (`Delivers` is false for both).
   */
  datatype ReadEvent = Data(bytes: seq<byte>) | Timeout | Empty

  /** The `i`-th read; reads beyond the recorded events time out. */
  function EventAt(events: seq<ReadEvent>, i: nat): ReadEvent
  {
    if i < |events| then events[i] else Timeout
  }

  /** The read returns at least one byte. */
  predicate Delivers(ev: ReadEvent)
  {
    ev.Data? && |ev.bytes| > 0
  }

  /**
    The integer state of a `Client`: its index, `recv_count`, the `finished`
    flag, and how many times `kill_connection` has closed its socket.
   */
  datatype Client = Client(idx: nat, recvCount: nat, finished: bool, closes: nat)

  /** `Client(idx, sock)` as the acceptor creates it. */
  function NewClient(idx: nat): Client
  {
    Client(idx, 0, false, 0)
  }

  /** `kill_connection`: close the socket, then `finish`, which sets `finished`. */
  function KillConnection(c: Client): Client
  {
    c.(closes := c.closes + 1, finished := true)
  }

  /** The integer part of `increase_recv_count`; the speeds are left out. */
  function IncreaseRecvCount(c: Client, n: nat): Client
  {
    c.(recvCount := c.recvCount + n)
  }

  /**
    `receive_async`: a read that delivers bytes returns them and leaves the
    client alone; a timeout or a zero-length read kills the connection and
    returns `None`.
   */
  function ReceiveAsync(c: Client, ev: ReadEvent): (r: (Client, Option<seq<byte>>))
    ensures r.1.Some? <==> Delivers(ev)
    ensures r.1.Some? ==> r.0 == c && r.1.value == ev.bytes
    ensures r.1.None? ==> r.0.finished && r.0.closes == c.closes + 1
    ensures r.0.idx == c.idx && r.0.recvCount == c.recvCount
  {
    match ev
    case Timeout => (KillConnection(c), None)
    case Empty => (KillConnection(c), None)
    case Data(b) => if |b| == 0 then (KillConnection(c), None) else (c, Some(b))
  }

  /** Chunk `j - 1` is the payload of read `j`: the reads that follow the header read, in arrival order. */
  predicate ArrivedInOrder(chunks: seq<seq<byte>>, events: seq<ReadEvent>)
  {
    forall j :: 1 <= j <= |chunks| ==> Delivers(EventAt(events, j)) && chunks[j - 1] == EventAt(events, j).bytes
  }

  /** Each chunk was read while the bytes before it were still fewer than `fileSize`. */
  predicate ReadWhileShort(chunks: seq<seq<byte>>, fileSize: nat)
  {
    forall k :: 0 <= k < |chunks| ==> |Flatten(chunks[..k])| < fileSize
  }

  /** The body loop's local state: `received`, the file, the digest input, the chunks so far and the reads done. */
  datatype Progress = Progress(
    client: Client,
    received: nat,
    file: seq<byte>,
    hashed: seq<byte>,
    chunks: seq<seq<byte>>,
    readsDone: nat)

  /** The file and the digest input are both the chunks in arrival order, and `received` counts them. */
  predicate Tracks(p: Progress)
  {
    p.file == Flatten(p.chunks) && p.hashed == p.file && p.received == |p.file|
  }

  /**
    The `while received < file_size` loop. It stops as soon as `received`
    reaches the declared size; the last chunk is not capped to what remains,
    so `received` may pass it. The boolean is false when a read failed.
   */
  function ReceiveBody(p: Progress, events: seq<ReadEvent>, fileSize: nat): (r: (Progress, bool))
    requires Tracks(p)
    ensures Tracks(r.0)
    ensures |p.chunks| <= |r.0.chunks| && r.0.chunks[..|p.chunks|] == p.chunks
    ensures r.1 <==> r.0.received >= fileSize
    ensures r.0.readsDone == p.readsDone + (|r.0.chunks| - |p.chunks|) + (if r.1 then 0 else 1)
    ensures !r.1 ==> !Delivers(EventAt(events, r.0.readsDone - 1))
    ensures r.0.client.idx == p.client.idx
    ensures r.0.client.recvCount == p.client.recvCount + (r.0.received - p.received)
    ensures r.1 ==> r.0.client.finished == p.client.finished && r.0.client.closes == p.client.closes
    ensures !r.1 ==> r.0.client.finished && r.0.client.closes == p.client.closes + 1
    decreases if p.received < fileSize then fileSize - p.received else 0
  {
    if p.received >= fileSize then (p, true)
    else
      var (c, batch) := ReceiveAsync(p.client, EventAt(events, p.readsDone));
      if batch.None? then (p.(client := c, readsDone := p.readsDone + 1), false)
      else
        var b := batch.value;
        FlattenAppend(p.chunks, b);
        var next := Advance(p, b);
        var r := ReceiveBody(next, events, fileSize);
        assert r.0.chunks[..|p.chunks|] == p.chunks by {
          assert r.0.chunks[..|p.chunks|] == r.0.chunks[..|next.chunks|][..|p.chunks|];
        }
        r
  }

  /** The successor state after one delivered chunk, as the loop body builds it. */
  function Advance(p: Progress, b: seq<byte>): Progress
  {
    Progress(IncreaseRecvCount(p.client, |b|), p.received + |b|, p.file + b, p.hashed + b, p.chunks + [b], p.readsDone + 1)
  }

  /**
    Every chunk the loop appends is the payload of the next read, in order,
    and the loop only read it while `received` was still below the declared size.
   */
  lemma {:induction false} ReceiveBodyChunks(p: Progress, events: seq<ReadEvent>, fileSize: nat, k: nat)
    requires Tracks(p)
    requires |p.chunks| <= k < |ReceiveBody(p, events, fileSize).0.chunks|
    ensures Delivers(EventAt(events, p.readsDone + (k - |p.chunks|)))
    ensures ReceiveBody(p, events, fileSize).0.chunks[k] == EventAt(events, p.readsDone + (k - |p.chunks|)).bytes
    ensures |Flatten(ReceiveBody(p, events, fileSize).0.chunks[..k])| < fileSize
    decreases if p.received < fileSize then fileSize - p.received else 0
  {
    ReceiveBodyStep(p, events, fileSize);
    if k > |p.chunks| {
      ReceiveBodyChunks(Advance(p, EventAt(events, p.readsDone).bytes), events, fileSize, k);
    }
  }

  /** A loop that appends a chunk at all runs one iteration on the next read, which delivers it. */
  lemma {:induction false} ReceiveBodyStep(p: Progress, events: seq<ReadEvent>, fileSize: nat)
    requires Tracks(p)
    requires |p.chunks| < |ReceiveBody(p, events, fileSize).0.chunks|
    ensures var ev := EventAt(events, p.readsDone);
      && p.received < fileSize && Delivers(ev)
      && Tracks(Advance(p, ev.bytes))
      && ReceiveBody(p, events, fileSize) == ReceiveBody(Advance(p, ev.bytes), events, fileSize)
      && ReceiveBody(p, events, fileSize).0.chunks[|p.chunks|] == ev.bytes
      && |Flatten(ReceiveBody(p, events, fileSize).0.chunks[..|p.chunks|])| < fileSize
  {
    var ev := EventAt(events, p.readsDone);
    var next := Advance(p, ev.bytes);
    FlattenAppend(p.chunks, ev.bytes);
    var r := ReceiveBody(next, events, fileSize).0;
    assert r.chunks[..|next.chunks|] == next.chunks;
    assert r.chunks[|p.chunks|] == next.chunks[|p.chunks|];
    assert r.chunks[..|p.chunks|] == r.chunks[..|next.chunks|][..|p.chunks|];
  }

  /** The loop as the handler starts it: right after the header read, with nothing received. */
  function StartBody(c: Client): (p: Progress)
    ensures Tracks(p)
  {
    Progress(c, 0, [], [], [], 1)
  }

  /** From the handler's start: read `j` (the header was read 0) delivered chunk `j - 1`. */
  lemma StartBodyChunks(c: Client, events: seq<ReadEvent>, fileSize: nat)
    ensures var r := ReceiveBody(StartBody(c), events, fileSize).0;
      ArrivedInOrder(r.chunks, events) && ReadWhileShort(r.chunks, fileSize)
  {
    var r := ReceiveBody(StartBody(c), events, fileSize).0;
    forall j | 1 <= j <= |r.chunks|
      ensures Delivers(EventAt(events, j)) && r.chunks[j - 1] == EventAt(events, j).bytes
    {
      ReceiveBodyChunks(StartBody(c), events, fileSize, j - 1);
    }
    forall k | 0 <= k < |r.chunks|
      ensures |Flatten(r.chunks[..k])| < fileSize
    {
      ReceiveBodyChunks(StartBody(c), events, fileSize, k);
    }
  }

  /** How a connection's handler ended. */
  datatype Outcome =
    | HeaderLost          // the header read timed out or the peer closed
    | NameDecodeFailed       // decoding the name raised; the exception leaves the handler
    | BodyLost            // a body read timed out or the peer closed
    | ChecksumLost        // the checksum read timed out or the peer closed
    | Checked(correct: bool)  // the checksum was compared: "correct" or "invalid"

  /** The handler returned, rather than propagating an exception. */
  predicate ReturnsNormally(o: Outcome)
  {
    !o.NameDecodeFailed?
  }

  /** Everything a handler run leaves behind. */
  datatype Handled = Handled(
    client: Client,
    outcome: Outcome,
    info: Option<FileInfo>,
    file: seq<byte>,
    hashed: seq<byte>,
    chunks: seq<seq<byte>>,
    trailer: seq<byte>,
    readsDone: nat)

  /**
    The handler after a header that decoded to `info`: the body loop, then the
    checksum read and comparison (`c` is the client after the header read).
   */
  function ReceiveFile(c: Client, info: FileInfo, events: seq<ReadEvent>, digest: Digest): (s: Handled)
    ensures s.info == Some(info) && (s.outcome.BodyLost? || s.outcome.ChecksumLost? || s.outcome.Checked?)
    ensures s.file == Flatten(s.chunks) && s.hashed == s.file
    ensures ArrivedInOrder(s.chunks, events) && ReadWhileShort(s.chunks, info.fileSize)
    ensures s.readsDone == |s.chunks| + 2
    ensures s.outcome.BodyLost? <==> |s.file| < info.fileSize
    ensures !s.outcome.Checked? ==> !Delivers(EventAt(events, s.readsDone - 1))
    ensures s.outcome.Checked? ==> Delivers(EventAt(events, s.readsDone - 1)) && s.trailer == EventAt(events, s.readsDone - 1).bytes
    ensures s.outcome.Checked? ==> (s.outcome.correct <==> s.trailer == digest(s.file))
    ensures s.client.idx == c.idx && s.client.recvCount == c.recvCount + |s.file|
    ensures s.client.finished && s.client.closes == c.closes + 1
  {
    StartBodyChunks(c, events, info.fileSize);
    var body := ReceiveBody(StartBody(c), events, info.fileSize);
    Conclude(info, body.0, body.1, EventAt(events, body.0.readsDone), digest)
  }

  /** What follows the body loop: the record of a lost body, or the checksum read `ev` and the comparison. */
  function Conclude(info: FileInfo, p: Progress, done: bool, ev: ReadEvent, digest: Digest): Handled
  {
    if !done then Handled(p.client, BodyLost, Some(info), p.file, p.hashed, p.chunks, [], p.readsDone)
    else
      var checksum := digest(p.hashed);
      var (c2, clientChecksum) := ReceiveAsync(p.client, ev);
      if clientChecksum.None? then
        Handled(c2, ChecksumLost, Some(info), p.file, p.hashed, p.chunks, [], p.readsDone + 1)
      else
        Handled(KillConnection(c2), Checked(checksum == clientChecksum.value), Some(info),
                p.file, p.hashed, p.chunks, clientChecksum.value, p.readsDone + 1)
  }

  /** `handle_client_connection` for client `c`, reading `events`, with host byte order `order`. */
  function HandleClientConnection(c: Client, events: seq<ReadEvent>, order: ByteOrder, digest: Digest): (s: Handled)
    // The header read
    ensures s.outcome == HeaderLost <==> !Delivers(EventAt(events, 0))
    ensures s.outcome == NameDecodeFailed <==>
      Delivers(EventAt(events, 0)) && DecodeHeader(EventAt(events, 0).bytes, order).Failure?
    ensures s.info.Some? <==> !s.outcome.HeaderLost? && !s.outcome.NameDecodeFailed?
    ensures s.info.Some? ==> s.info == Some(DecodeHeader(EventAt(events, 0).bytes, order).value)
    ensures s.info.None? ==> s.readsDone == 1 && s.chunks == []
    // The body: file and digest input are the chunks, which are the reads after the header, in order
    ensures s.file == Flatten(s.chunks) && s.hashed == s.file
    ensures ArrivedInOrder(s.chunks, events)
    ensures s.info.Some? ==> s.readsDone == |s.chunks| + 2
    ensures s.info.Some? ==> ReadWhileShort(s.chunks, s.info.value.fileSize)
    ensures s.outcome.BodyLost? ==> |s.file| < s.info.value.fileSize
    ensures s.outcome.ChecksumLost? || s.outcome.Checked? ==> |s.file| >= s.info.value.fileSize
    // The last read: a failure ends the handler, a delivered checksum is compared
    ensures s.outcome.HeaderLost? || s.outcome.BodyLost? || s.outcome.ChecksumLost? ==> !Delivers(EventAt(events, s.readsDone - 1))
    ensures s.outcome.Checked? ==> Delivers(EventAt(events, s.readsDone - 1)) && s.trailer == EventAt(events, s.readsDone - 1).bytes
    ensures s.outcome.Checked? ==> (s.outcome.correct <==> s.trailer == digest(s.file))
    // The client record
    ensures s.client.idx == c.idx && s.client.recvCount == c.recvCount + |s.file|
    ensures ReturnsNormally(s.outcome) ==> s.client.finished && s.client.closes == c.closes + 1
    ensures s.outcome.NameDecodeFailed? ==> s.client == c
    ensures c.finished ==> s.client.finished
  {
    var (c1, fileInfo) := ReceiveAsync(c, EventAt(events, 0));
    if fileInfo.None? then Handled(c1, HeaderLost, None, [], [], [], [], 1)
    else
      match DecodeHeader(fileInfo.value, order)
      case Failure(_) => Handled(c1, NameDecodeFailed, None, [], [], [], [], 1)
      case Success(info) => ReceiveFile(c1, info, events, digest)
  }

  /** Once the loop has finished, reads it never reached do not influence it. */
  lemma {:induction false} ReceiveBodyIgnoresLaterEvents(p: Progress, events: seq<ReadEvent>, more: seq<ReadEvent>, fileSize: nat)
    requires Tracks(p)
    requires ReceiveBody(p, events, fileSize).0.readsDone <= |events|
    ensures var n := ReceiveBody(p, events, fileSize).0.readsDone;
      ReceiveBody(p, events[..n] + more, fileSize) == ReceiveBody(p, events, fileSize)
    decreases if p.received < fileSize then fileSize - p.received else 0
  {
    var n := ReceiveBody(p, events, fileSize).0.readsDone;
    var events' := events[..n] + more;
    if p.received < fileSize {
      assert EventAt(events', p.readsDone) == EventAt(events, p.readsDone);
      var ev := EventAt(events, p.readsDone);
      if Delivers(ev) {
        FlattenAppend(p.chunks, ev.bytes);
        ReceiveBodyIgnoresLaterEvents(Advance(p, ev.bytes), events, more, fileSize);
      }
    }
  }

  lemma ReceiveFileIgnoresLaterEvents(c: Client, info: FileInfo, events: seq<ReadEvent>, more: seq<ReadEvent>, digest: Digest)
    requires ReceiveFile(c, info, events, digest).readsDone <= |events|
    ensures var n := ReceiveFile(c, info, events, digest).readsDone;
      ReceiveFile(c, info, events[..n] + more, digest) == ReceiveFile(c, info, events, digest)
  {
    ReceiveFileConcludes(c, info, events, digest);
    var n := ReceiveFile(c, info, events, digest).readsDone;
    ReceiveFileConcludes(c, info, events[..n] + more, digest);
    ConcludeIgnoresLaterEvents(c, info, events, more, digest);
    var body := ReceiveBody(StartBody(c), events, info.fileSize);
    var body' := ReceiveBody(StartBody(c), events[..n] + more, info.fileSize);
    assert body' == body;
  }

  /** The body loop and the checksum read after it, stated without `ReceiveFile`. */
  lemma ConcludeIgnoresLaterEvents(c: Client, info: FileInfo, events: seq<ReadEvent>, more: seq<ReadEvent>, digest: Digest)
    ensures var body := ReceiveBody(StartBody(c), events, info.fileSize);
      var n := body.0.readsDone + (if body.1 then 1 else 0);
      n <= |events| ==>
        var body' := ReceiveBody(StartBody(c), events[..n] + more, info.fileSize);
        && body' == body
        && Conclude(info, body'.0, body'.1, EventAt(events[..n] + more, body'.0.readsDone), digest)
           == Conclude(info, body.0, body.1, EventAt(events, body.0.readsDone), digest)
  {
    var body := ReceiveBody(StartBody(c), events, info.fileSize);
    var m := body.0.readsDone;
    var n := m + (if body.1 then 1 else 0);
    if n <= |events| {
      var events' := events[..n] + more;
      assert events' == events[..m] + (events[m..n] + more);
      ReceiveBodyIgnoresLaterEvents(StartBody(c), events, events[m..n] + more, info.fileSize);
      if body.1 {
        assert EventAt(events', m) == EventAt(events, m);
      }
    }
  }

  /** `ReceiveFile` is the body loop followed by `Conclude` on the read after it, which is read only when the loop ended normally. */
  lemma ReceiveFileConcludes(c: Client, info: FileInfo, events: seq<ReadEvent>, digest: Digest)
    ensures var body := ReceiveBody(StartBody(c), events, info.fileSize);
      && ReceiveFile(c, info, events, digest) == Conclude(info, body.0, body.1, EventAt(events, body.0.readsDone), digest)
      && ReceiveFile(c, info, events, digest).readsDone == body.0.readsDone + (if body.1 then 1 else 0)
  {
  }

  /**
    The handler reads nothing after the read that ended it: replacing every
    later event leaves the whole run unchanged. In particular a failed read
    ends the handler at once, with no verdict.
   */
  lemma HandlerIgnoresLaterEvents(c: Client, events: seq<ReadEvent>, more: seq<ReadEvent>, order: ByteOrder, digest: Digest)
    requires HandleClientConnection(c, events, order, digest).readsDone <= |events|
    ensures var n := HandleClientConnection(c, events, order, digest).readsDone;
      HandleClientConnection(c, events[..n] + more, order, digest) == HandleClientConnection(c, events, order, digest)
  {
    var s := HandleClientConnection(c, events, order, digest);
    var events' := events[..s.readsDone] + more;
    assert EventAt(events', 0) == EventAt(events, 0);
    if s.info.Some? {
      var c1 := ReceiveAsync(c, EventAt(events, 0)).0;
      ReceiveFileIgnoresLaterEvents(c1, s.info.value, events, more, digest);
    }
  }

  /** The body "hello" of the overshoot example. */
  const Hello: seq<byte> := [104, 101, 108, 108, 111]

  /**
    Nothing caps the last chunk to the bytes still expected. The client sends
    the header for a 5-byte file "a", the body "hello" and its digest; when
    the stream delivers the body and the digest in one read, all 37 bytes are
    written to the file, and the checksum read that follows finds nothing
    and times out.
   */
  lemma OvershootPossible(order: ByteOrder, digest: Digest)
    ensures var h := EncodeHeader(5, "a", order).value;
      var s := HandleClientConnection(NewClient(0), [Data(h), Data(Hello + digest(Hello))], order, digest);
      && s.info == Some(FileInfo(5, "a"))
      && s.file == Hello + digest(Hello) && |s.file| == 37
      && s.outcome == ChecksumLost
      && s.client.recvCount == 37
  {
    var h := EncodeHeader(5, "a", order).value;
    var body := Hello;
    var events := [Data(h), Data(body + digest(body))];
    var info := FileInfo(5, "a");
    assert |h| > 0 && DecodeHeader(h, order) == Success(info) by {
      assert Utf8.IsAscii("a");
      AsciiRoundTrip(5, "a", order);
    }
    assert EventAt(events, 0) == Data(h);
    HandlerAfterHeader(NewClient(0), events, order, digest, info);
    OvershootBody(h, info, body + digest(body), digest);
  }

  /** Once the first read delivers a header that decodes to `info`, the handler is `ReceiveFile` on that client. */
  lemma HandlerAfterHeader(c: Client, events: seq<ReadEvent>, order: ByteOrder, digest: Digest, info: FileInfo)
    requires Delivers(EventAt(events, 0)) && DecodeHeader(EventAt(events, 0).bytes, order) == Success(info)
    ensures HandleClientConnection(c, events, order, digest) == ReceiveFile(c, info, events, digest)
  {
  }

  /**
    A single body read that reaches the declared size ends the loop and is
    written whole; with no read after it, the checksum read times out.
   */
  lemma OvershootBody(h: seq<byte>, info: FileInfo, b: seq<byte>, digest: Digest)
    requires 0 < info.fileSize <= |b|
    ensures var s := ReceiveFile(NewClient(0), info, [Data(h), Data(b)], digest);
      && s.info == Some(info)
      && s.file == b
      && s.outcome == ChecksumLost
      && s.client.recvCount == |b|
  {
    var events := [Data(h), Data(b)];
    var p0 := StartBody(NewClient(0));
    assert EventAt(events, 1) == Data(b);
    FlattenAppend([], b);
    var next := Advance(p0, b);
    assert ReceiveBody(next, events, info.fileSize) == (next, true);
    assert ReceiveBody(p0, events, info.fileSize) == (next, true);
    assert EventAt(events, 2) == Timeout;
  }

  /**
    When every body read respects the 1024-byte limit of `receive_async(1024, ...)`,
    the overshoot is less than one chunk.
   */
  lemma OvershootBounded(c: Client, events: seq<ReadEvent>, order: ByteOrder, digest: Digest)
    requires forall i :: 1 <= i < |events| ==> events[i].Data? ==> |events[i].bytes| <= BodyChunkSize
    ensures var s := HandleClientConnection(c, events, order, digest);
      s.info.Some? ==> |s.file| < s.info.value.fileSize + BodyChunkSize
  {
    var s := HandleClientConnection(c, events, order, digest);
    if s.info.Some? {
      LastChunkBound(s.chunks, events, s.info.value.fileSize);
    }
  }

  /** Chunks read in order while short, from reads of at most 1024 bytes, overshoot by less than one read. */
  lemma LastChunkBound(chunks: seq<seq<byte>>, events: seq<ReadEvent>, fileSize: nat)
    requires forall i :: 1 <= i < |events| ==> events[i].Data? ==> |events[i].bytes| <= BodyChunkSize
    requires ArrivedInOrder(chunks, events) && ReadWhileShort(chunks, fileSize)
    ensures |Flatten(chunks)| < fileSize + BodyChunkSize
  {
    if |chunks| > 0 {
      var k := |chunks| - 1;
      assert chunks == chunks[..k] + [chunks[k]];
      FlattenAppend(chunks[..k], chunks[k]);
      assert |Flatten(chunks[..k])| < fileSize;
      assert Delivers(EventAt(events, k + 1)) && chunks[k] == EventAt(events, k + 1).bytes;
    }
  }

  /**
    The comparison is exact: a checksum read that is short, long, or not
    thirty-two lower-case hex digits (an upper-case rendering, say) is
    reported invalid.
   */
  lemma MalformedChecksumInvalid(c: Client, events: seq<ReadEvent>, order: ByteOrder, digest: Digest)
    ensures var s := HandleClientConnection(c, events, order, digest);
      s.outcome.Checked? && !IsHexDigest(s.trailer) ==> !s.outcome.correct
  {
  }
}
