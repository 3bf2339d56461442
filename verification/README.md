# File server transfer protocol, modelled in Dafny

The system is a small file transfer tool. A client sends one file over TCP. A
server stores the file and checks its MD5 checksum. This project models the
core of both ends:

- **Header codec** (`header.dfy`, on top of `bytes.dfy` and `utf8.dfy`). The
  client builds an 8-byte file size, a 4-byte name length, and the UTF-8 name
  padded with zero bytes to 4096 bytes. The server slices these fields back
  out of its first read. Both ends use the host byte order (`sys.byteorder`),
  so the model takes the byte order as one shared parameter.
- **Connection handler** (`session.dfy`). This is `Client.handle_client_connection`
  as pure functions over a sequence of read events (`Data`, `Timeout`, `Empty`).
  It reads the header, then reads body chunks until the received count reaches
  the declared size, then reads the 32-byte checksum and compares it. A read
  past the end of the event sequence counts as a `Timeout`. The uploaded file
  and the digest input are byte sequences that only grow by appending. The
  client record keeps `recv_count`, the `finished` flag, and how many times
  `kill_connection` ran.
- **Checksum** (`checksum.dfy`). MD5 plus `hexdigest()` is a function
  parameter that maps bytes to thirty-two lower-case hex digits.
- **Sender** (`sender.dfy`). This is `send_file`: the name-length check, the
  header, the 1024-byte read loop that feeds the digest, and the trailer.
- **Registry** (`registry.dfy`). One watcher pass is modelled with its two
  loops, collecting and then removing. The acceptor assigns indices 0, 1, 2, …
- **End to end** (`transfer.dfy`). A well-formed stream is received intact,
  however the reads split the body, provided the header, the body and the
  trailer arrive in separate reads.

Points where the code behaves in ways a reader may not expect:

- Both ends use the host's byte order (`sys.byteorder`), so they agree only
  when their hosts do. The model passes one byte order to both ends.
- The name-length field and the padding count characters, not UTF-8 bytes
  (see Findings). A name with a multi-byte character is then either rejected
  by the server's decode (`"é"`) or silently read as a shorter, different
  name (`"éé"` is read as `"é"`). In the second case the header is also
  longer than the server's 4108-byte first read, so its last padding bytes
  become the first body bytes: the file is shifted, the checksum read is
  misaligned, and a "correct" verdict would take an MD5 coincidence.
- The body loop stops at `received >= file_size`, and the last chunk is not
  capped. So `received` can exceed the declared size, for example when the
  body and the checksum arrive in one read.
- A name that is not valid UTF-8 raises `UnicodeDecodeError`. The handler
  never catches it, so the socket is not closed and `finished` stays false.
  The model records this as the outcome `NameDecodeFailed`. The watcher then
  keeps that client for ever. This is the one escaping exception the model
  covers; others that escape the same way are listed under Left out.
- The first read may be shorter than a full header. Python slicing then yields
  shorter fields rather than an error, and the model decodes any first read
  in the same way.

## Model

| member | source | states |
|---|---|---|
| Bytes.FromToBytes | client/__main__.py:19-20 | `int.from_bytes` with the same byte order returns the integer that `to_bytes` wrote, for every value that fits the width |
| Bytes.ToFromBytes | server/__main__.py:93-94 | every fixed-width byte field is the `to_bytes` encoding of the integer it decodes to, so the size and length fields are a bijection |
| Bytes.Slice | server/__main__.py:93-95 | the server's slices follow Python's semantics: bounds past the end are clamped, and a field beyond a short read is empty |
| Utf8.DecodeEncode | client/__main__.py:21 | decoding the UTF-8 encoding of any string gives the string back |
| Utf8.EncodeDecode | server/__main__.py:95 | a byte string that decodes without error is exactly the encoding of the decoded name, so the strict decoder accepts nothing else |
| Utf8.EncodedLength | client/__main__.py:20-21 | the encoding has the character count as its length exactly for ASCII names, where it is byte-for-byte the characters, and is strictly longer otherwise |
| Header.EncodeHeader | client/__main__.py:15-24 | a name longer than 4096 characters is rejected; otherwise the header is size field, then length field holding the character count, then the encoded name, then zero padding, and it is 4108 bytes plus the extra bytes of multi-byte characters |
| Header.DecodeHeader | server/__main__.py:93-95 | the size is the integer of bytes [0,8) and the length the integer of bytes [8,12); parsing fails exactly when bytes [12, 12+length) are not UTF-8, and on success the name re-encodes to exactly those bytes |
| Header.AsciiRoundTrip | client/__main__.py:19-24 | with equal byte order, a size below 2^64 and an ASCII name of at most 4096 characters, the header is exactly 4108 bytes and the server parses back the size and the name |
| Header.MultiByteHeader | client/__main__.py:15-21 | for a name with a multi-byte character, the header is longer than 4108 bytes and its length field differs from the encoded name length |
| Header.MultiByteNameNotRecovered | client/__main__.py:20-21 | the header for the name "é" has length field 1, and the server's parse of it fails with a decode error, both on the whole header and on the first 4108 bytes |
| Header.MultiByteNameMisread | client/__main__.py:20-21 | the header for the name "éé" has length field 2, and the server's parse of it succeeds with the wrong name "é", both on the whole header and on the first 4108 bytes |
| Header.EncodeHeaderByBytes | client/__main__.py:15-24 | the corrected header is rejected exactly when the encoded name exceeds 4096 bytes, and is otherwise always 4108 bytes |
| Header.ByteLengthRoundTrip | server/__main__.py:93-95 | with the encoded length on the wire, every name whose encoding fits is parsed back with its size, multi-byte names included |
| Session.ReceiveAsync | server/__main__.py:71-82 | a read returns its bytes exactly when it delivers at least one byte, and then leaves the client unchanged; a timeout or zero-length read closes the socket once and sets `finished` |
| Session.ReceiveBody | server/__main__.py:101-114 | the loop ends normally exactly when `received >= file_size`; the file and the digest input both stay equal to the chunks joined in order; `received` and `recv_count` grow by the chunk lengths; a failed read ends it with `finished` set and one close |
| Session.ReceiveBodyChunks | server/__main__.py:101-111 | each chunk is the payload of the next read in order, and it was read only while the bytes before it were fewer than the declared size |
| Session.ReceiveFile | server/__main__.py:97-127 | after a decoded header: the body is lost exactly when fewer than the declared bytes arrived; otherwise the checksum read follows, and the verdict is "correct" exactly when the trailer equals the digest of the written bytes; the socket is closed exactly once |
| Session.HandleClientConnection | server/__main__.py:84-127 | header lost iff the first read fails; decode error iff the name is not UTF-8, and then the client is untouched; every normal return closes exactly once and leaves `finished` true; the file is the chunks in arrival order; `recv_count` grows by the file length; `finished` is never reset |
| Session.ReceiveBodyIgnoresLaterEvents | server/__main__.py:105-107 | the body loop does not look at any read after the one that ended it |
| Session.ReceiveFileIgnoresLaterEvents | server/__main__.py:118-120 | after the header, nothing past the checksum read, or past a failed body read, influences the result |
| Session.HandlerIgnoresLaterEvents | server/__main__.py:88-90 | the handler returns right after a failed read or the verdict: replacing all later reads changes nothing |
| Session.OvershootPossible | server/__main__.py:101-111 | after the client's header for a 5-byte file "a", a single read holding the body "hello" and its 32-byte digest is written whole: the file is those 37 bytes, `recv_count` becomes 37, and the checksum read that follows times out |
| Session.OvershootBounded | server/__main__.py:105-110 | when body reads respect the 1024-byte limit, the bytes written stay below the declared size plus 1024 |
| Session.MalformedChecksumInvalid | server/__main__.py:117-125 | the comparison does no normalisation: a trailer that is not thirty-two lower-case hex digits, such as a short one, is reported invalid |
| Sender.SendBody | client/__main__.py:26-33 | the read loop sends and hashes exactly the file's bytes in order; every read is non-empty and at most 1024 bytes, and all but the last are full |
| Sender.SendFile | client/__main__.py:10-36 | a name over 4096 characters sends nothing; otherwise the stream is the header, then the whole file in order, then the digest of exactly those bytes; reads are 1024 bytes except the last, and none is empty |
| Registry.WithStatusMembers | server/__main__.py:139-143 | a client is collected exactly when its `finished` flag has the given value, and nothing else is added |
| Registry.UnfinishedKeepsOrder | server/__main__.py:139-147 | the clients kept by the watcher are the original list with some entries deleted, in their original relative order |
| Registry.RemoveFinished | server/__main__.py:146-147 | removing the collected finished clients one at a time, with `list.remove`, leaves exactly the unfinished clients |
| Registry.WatchOnce | server/__main__.py:139-147 | one watcher pass keeps exactly the unfinished clients, in order, and reports speeds for exactly those clients' indices, in list order |
| Registry.ApplyValid | server/__main__.py:165-174 | accepting a connection, a watcher pass, or a session updating its client keeps indices increasing and below `last_client_idx`; only an accept advances the counter |
| Registry.RunValid | server/__main__.py:165-174 | over any interleaving of accepts, passes and updates, indices stay increasing and distinct, and `last_client_idx` equals the number of accepted connections |
| Registry.FinishedSessionPruned | server/__main__.py:139-147 | a client whose handler finished is gone after the next pass; a client still unfinished, as after an escaped decode error, stays in the list |
| Transfer.DeliveredIntact | server/__main__.py:84-127 | a decodable header, exactly the declared bytes in non-empty reads of any size, and a trailer: the server records exactly those chunks and writes exactly those bytes; it compares the trailer with their digest and finishes |
| Transfer.AsciiTransferVerified | client/__main__.py:19-36 | for an ASCII name, what the sender emits is parsed back to its size and name; the file is written exactly and judged correct, for any split of the body into non-empty reads that end at its last byte, with header and trailer each in a read of its own |
| Transfer.ByteLengthTransferVerified | client/__main__.py:19-24 | with the corrected header, the end-to-end result holds for every name whose encoding fits |
| Transfer.WrongTrailerInvalid | server/__main__.py:122-125 | a trailer other than the body's digest is reported invalid, and the file is still written whole |
| Transfer.VerdictIndependentOfChunking | server/__main__.py:99-117 | two splits of the same body bytes into non-empty reads ending at its last byte give the same verdict, file and client state |
| Transfer.DisconnectAfterHeader | server/__main__.py:105-107 | a peer that closes right after the header of a non-empty file leaves an empty file; the handler ends with the body lost after two reads, closed once and finished |

## Left out

- Sockets, `asyncio`, `wait_for` and the 5-second timeout become read events. The interleaving of sessions is not modelled: each handler runs on its own event sequence.
- The size limits that `sock_recv` puts on each read (4108, 1024 and 32 bytes) are not imposed on the events. `Session.OvershootBounded` assumes the 1024-byte limit where it matters.
- Instantaneous and average speed are float divisions by wall-clock deltas. `update_last_seen`, the timestamps and the speeds are left out; only the integer `recv_count` is kept.
- Session.ReceiveBody: assumes a non-zero clock delta in `increase_recv_count` (server/__main__.py:48 and 53). On a coarse clock a read that returns at once divides by zero; the `ZeroDivisionError` escapes the handler mid-body, so the socket stays open, `finished` stays false and the watcher keeps the client for ever. The model has no such path, so `Registry.FinishedSessionPruned` covers only the decode error as a way to stay unfinished.
- Session.ReceiveAsync: models only the three read outcomes (data, timeout, zero-length read). An `OSError` from `sock_recv`, such as a connection reset, escapes the handler the same way, leaving the socket open and the client unfinished.
- Header.EncodeHeader: file names are Dafny strings, which cannot hold lone surrogates. A Python name from `os.path.basename` of a path whose bytes are not UTF-8 carries surrogate escapes; `len(filename)` counts them, and `bytes(filename, 'utf-8')` raises `UnicodeEncodeError` before anything is sent. That error path of `send_file` is not modelled.
- Transfer.AsciiTransferVerified: the end-to-end lemmas deliver the header, the body and the trailer in separate reads. On a TCP stream the last body read may also take trailer bytes, since `receive_async(1024)` asks for more than remains. The server then writes those bytes into the file and the checksum read times out, as `Session.OvershootPossible` shows. The same limit applies to `Transfer.ByteLengthTransferVerified`, `Transfer.WrongTrailerInvalid`, `Transfer.VerdictIndependentOfChunking` and `Transfer.DeliveredIntact`.
- File-system effects are left out: the uploads folder, `open`, and errors from opening a path. For example, an empty name opens the folder itself, and a name containing `/` can name a missing directory. The handler assumes the open succeeds and models the file as the bytes written.
- MD5 internals and `hexdigest` formatting are left out. The digest is any function to thirty-two lower-case hex digits.
- `sock.send` is taken to send all it is given. The client ignores its return value, so a partial send is possible but not modelled.
- `Sender.SendFile` requires a file size below 2^64, because `to_bytes` would raise `OverflowError`, which the client never handles. The file is taken not to change between `getsize` and the reads.
- `Registry.RemoveFirst` returns the list unchanged when the element is absent, where `list.remove` would raise. The watcher only removes elements it just found, so this case never arises.
- The registry holds client values, not references. `Registry.Publish` stands for a handler writing its own client's fields.
- The `argparse` setup, `main`, `KeyboardInterrupt` handling, `print_canceled_clients` and all printed output are left out.

## Findings

| source | as written | input that shows it | evidently intended | confidence | as-written member | corrected member |
|---|---|---|---|---|---|---|
| client/__main__.py:15-21 | the length field and the zero padding use `len(filename)`, the character count, while the name is sent UTF-8 encoded | name "é": the header is 4109 bytes and the length field is 1, so the server decodes the lone byte 0xC3 and raises `UnicodeDecodeError`; name "éé": the length field is 2, so the server silently stores the file as "é"; the 4110-byte header also overruns the 4108-byte first read, so two padding bytes start the body, the file is shifted and the checksum read is misaligned | length and padding computed from `len(bytes(filename, 'utf-8'))`, checked against 4096 | high; not executed | Header.MultiByteNameNotRecovered, Header.MultiByteNameMisread | Header.ByteLengthRoundTrip |
