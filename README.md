# Upload and return over one TCP connection

This project models the data side of a small upload protocol, written in Python.
A client uploads a file; the server sends it straight back in chunks; the client checks it.
The model is in Dafny and covers `Server.handle_client` and `Server.corrupt_data` in
`server.py`, and `Client.upload_file` in `client.py`.

The exchange, as the code performs it:

1. The client sends one text frame `"name|size"`.
2. The server strips it, splits it on `|` into exactly two fields, reads the size with `int()`,
   and answers `"ACK"`.
3. The client sends the file in blocks of 1024 bytes. The server receives until it holds
   `size` bytes or the connection ends.
4. With a probability drawn by the server, one byte is XORed with `0xFF`.
5. The server digests what it holds with SHA-256. It then sends every 1024-byte chunk as a
   header frame `"client_id|seq|len"` followed by the chunk, and finally the hex digest.
6. The client reassembles chunks until a header is empty or does not split into exactly
   three fields. It then
   receives once more for the checksum and compares that with the digest of what it
   reassembled.

Files:

- `wire.dfy`: bytes, frames and a `Socket` class.
  - `inbox` holds the frames the peer sent, and the connection is closed once it is empty.
  - `outbox` holds the frames sent.
  - `recv(n)` yields at most `n` bytes of the next frame; any remainder stays at the head.
  - `send(b"")` puts nothing on the wire.
- `utf8.dfy`: the strict UTF-8 codec behind `str.encode()` and `bytes.decode()`, with its
  round trip.
- `text.dfy`: `str.strip()`, `str.split("|")`, f-string integers and `int()` on text.
- `chunking.dfy`: the slicing comprehension `[d[i:i+CHUNK_SIZE] for i in range(0, len(d), CHUNK_SIZE)]`.
- `server.dfy`: the handler.
  - The receive and send loops are methods on a `Socket`.
  - Each method is proved against the functions `ReceiveFileData`, `ReplyFrames`,
    `HandleSpec`, `ServeFile` and `ReplyAll`.
  - Lemmas state what those functions promise.
- `client.dfy`: the uploader.
  - The block-send loop and the reassembly loop are methods proved against `Chunks` and
    `Reassemble`.
  - `UploadFile` is proved against `UploadSpec`.
  - `FinishCorrected` and `UploadCorrected` give the intended end of the upload.
- `session.dfy`: both programs composed.
  - The client's frames are the server's input, and the server's frames are the client's.
  - It covers parsing of the metadata and reassembly of the reply.
  - It gives the verdict of a transfer as written and as corrected.

External inputs are parameters:

- SHA-256 is a parameter `digest: Bytes -> string`.
- `simulate_network_error()` is a parameter `faultInjected: bool`.
- `random.randint(0, len(data) - 1)` is a parameter `pick: nat`, used as `pick % |data|`.
- The file's base name and its contents are inputs.

Three features the code does not have:

- Headers have three fields and no per-chunk checksum.
- No chunk is acknowledged or sent again, and no end marker follows the last chunk.
- The fault injector XORs the byte with `0xFF`, which flips all eight of its bits, not one.

## Model

| member | source | states |
|---|---|---|
| Wire.Receive | server.py:105-107 | a receive yields at most `bufsize` bytes; those bytes followed by what stays pending are the stream as it was; a closed connection yields `b""`; a frame that fits arrives whole; a receive of a positive size on an open connection consumes input |
| Wire.Socket.Recv | client.py:41 | the socket's pending frames advance exactly as `Receive` says, and nothing is sent |
| Wire.Socket.Send | server.py:124-125 | the frame is appended to what was sent unless it is empty, and nothing is received |
| Wire.Transmit | server.py:124-125 | no contract of its own: `TransmitFlatten` and `TransmitTwo` specify it |
| Wire.TransmitFlatten | server.py:124-125 | the sent byte stream grows by exactly the bytes sent |
| Wire.TransmitTwo | server.py:124-125 | two non-empty sends append exactly those two frames, in order |
| Utf8.EncodeChar | client.py:22 | a character encodes to 1 to 4 bytes, to one byte with its own code exactly when it is ASCII |
| Utf8.Encode | client.py:22 | no contract of its own: `EncodeAppend`, `EncodeAscii`, `EncodeEmpty` and `DecodeEncode` specify it |
| Utf8.Decode | server.py:94 | no contract of its own: `DecodeEncode`, `EncodeDecode` and `DecodeIff` state that it inverts `Encode` and accepts nothing else, and `DecodeFirst` bounds each step |
| Utf8.DecodeFirst | server.py:94 | a decoding step consumes between one byte and all that is left |
| Utf8.DecodeEncode | server.py:94 | decoding what `encode()` produced gives back every string unchanged |
| Utf8.EncodeCharDecodeFirst | server.py:94 | a decoding step reads exactly the encoding of the character it yields |
| Utf8.EncodeDecode | server.py:94 | decoding is strict: bytes that decode are the encoding of the text they decode to |
| Utf8.DecodeIff | server.py:94 | bytes decode to a text exactly when they are that text's encoding |
| Utf8.EncodeAppend | client.py:22 | encoding distributes over concatenation |
| Utf8.EncodeAscii | server.py:123-124 | ASCII text encodes to one byte per character with the same code |
| Utf8.EncodeEmpty | server.py:128 | the encoding is empty exactly when the text is |
| Text.IsSpace | server.py:94 | no contract of its own: the characters `str.isspace()` accepts, which `strip()` removes; `LStrip`, `RStrip`, `StripEnds` and `IntStripNarrower` state what `strip()` does with them |
| Text.LStrip | server.py:94 | the result is a suffix, everything dropped is whitespace, and the result does not start with whitespace |
| Text.RStrip | server.py:94 | the result is a prefix, everything dropped is whitespace, and the result does not end with whitespace |
| Text.Strip | server.py:94 | no contract of its own: `StripBounds`, `StripTrailing`, `StripEnds`, `StripNoop` and `StripPrefix` specify it |
| Text.StripBounds | server.py:94 | `strip()` keeps the slice of the text that starts where the leading whitespace ends |
| Text.StripTrailing | server.py:94 | everything after that slice is whitespace |
| Text.StripEnds | server.py:94 | the stripped text is empty or starts and ends with a non-space |
| Text.StripNoop | client.py:25 | text without whitespace at either end is its own strip |
| Text.IntLStrip | server.py:96 | the leading trim of `int()`: a suffix, everything dropped is `int()` whitespace (no U+001C..U+001F), and the result does not start with it |
| Text.IntRStrip | server.py:96 | the trailing trim of `int()`: a prefix, everything dropped is `int()` whitespace, and the result does not end with it |
| Text.IntStrip | server.py:96 | no contract of its own: the trim `int()` does before reading, `IntRStrip` after `IntLStrip`; `IntLStrip`, `IntRStrip`, `IntStripNoop` and `IntStripNarrower` specify it |
| Text.IntStripNoop | client.py:50 | text with none of `int()`'s whitespace at either end is read as it is |
| Text.StripPrefix | server.py:94 | stripping text that ends in a non-space part strips only the leading whitespace |
| Text.LStripKeeps | server.py:94-95 | stripping never removes a non-whitespace character such as `\|` |
| Text.Split | server.py:95 | `split` always yields at least one field |
| Text.JoinSplit | server.py:95 | no field contains the separator, and joining the fields with it gives the text back |
| Text.SplitJoin | client.py:44 | splitting separator-free fields joined by the separator gives the fields back |
| Text.SplitFree | client.py:44-45 | text without the separator is one field |
| Text.SplitCons | server.py:95 | a separator-free prefix becomes the first field |
| Text.SplitAppend | client.py:44 | the fields around one separator are those of each side, concatenated |
| Text.SplitMany | server.py:95 | text containing the separator has at least two fields |
| Text.FormatNat | server.py:123 | the decimal form of a natural number is non-empty |
| Text.FormatNatDigits | server.py:123 | the decimal form of a natural number is all digits |
| Text.FormatNatNoLeadingZero | server.py:123 | the decimal form starts with `0` exactly when the number is zero |
| Text.FormatNatMonotone | server.py:123 | a larger number never has fewer digits |
| Text.FormatInt | server.py:123 | no contract of its own: `f"{n}"`; `FormatIntChars`, `ParseFormat`, `FormatNat`, `FormatNatDigits` and `FormatNatNoLeadingZero` specify it |
| Text.FormatIntChars | server.py:123 | an integer's decimal form is non-empty ASCII, with no whitespace and no `\|` |
| Text.DigitsValueFormatNat | server.py:96 | the digits of `n` have the value `n` |
| Text.ParseUnsigned | server.py:96 | `int()` reads a digit body as its value |
| Text.ParseNegative | client.py:50 | `int()` reads a minus sign and a digit body as the negated value |
| Text.ParseTrimmed | server.py:96 | no contract of its own: the sign-and-digits reading `int()` does after trimming; `ParseUnsigned`, `ParseNegative` and `ParseRefuses` specify it |
| Text.ParseInt | server.py:96 | no contract of its own: `ParseUnsigned`, `ParseNegative`, `ParseFormat` and `IntStripNarrower` specify it |
| Text.IntStripNarrower | server.py:96 | `int()` trims less than `strip()`: a leading U+001C is whitespace to `strip()` but makes `int()` fail; a leading space is trimmed by both |
| Text.ParseRefuses | server.py:96 | text `int()` leaves untrimmed that starts with neither a sign nor a digit is refused |
| Text.ParseFormat | server.py:96 | `int(f"{n}") == n` for every integer |
| Chunking.FlattenChunks | server.py:119 | the chunks, concatenated in order, are the data |
| Chunking.ChunkBounds | server.py:119 | every chunk is non-empty and at most `size` bytes |
| Chunking.ChunkSizes | server.py:119 | there are no chunks exactly when the data is empty; all chunks but the last have exactly `size` bytes; the last has 1 to `size`; the count `n` has `(n-1)*size < len <= n*size` |
| Chunking.ChunkCount | server.py:119 | there are `ceil(len/size)` chunks, as many as `range(0, len, size)` yields |
| Chunking.ChunkAt | server.py:119 | chunk `j` starts inside the data and is the slice `data[j*size : (j+1)*size]` |
| Chunking.Chunks | server.py:119 | no contract of its own: `FlattenChunks`, `ChunkBounds`, `ChunkSizes`, `ChunkCount` and `ChunkAt` specify it |
| Server.ParseMetadata | server.py:94-96 | no contract of its own: `Session.ParseMetadataFrame`, `Session.ParseFields`, `Session.FieldsNameSize`, `Session.FieldsMany`, `Server.MetadataSeparatorRefused`, `Server.MetadataNotUtf8`, `Server.MetadataWithoutSeparator` and `Server.AckIffMetadataParses` specify it |
| Server.ParseMetadataFields | server.py:94-96 | metadata whose stripped text splits into a name and a size field is refused with ValueError exactly when `int()` refuses the size, and otherwise gives that name and size |
| Server.MetadataNotUtf8 | server.py:94 | a metadata frame that is the encoding of no text is refused by `decode()` |
| Server.MetadataWithoutSeparator | server.py:95 | metadata text without `\|` is one field, refused by the two-name unpacking |
| Server.MetadataSeparatorRefused | server.py:94-96 | metadata `"name\|\x1c<digit>"` is refused: `strip()` keeps the U+001C inside the text and `int()` does not trim it |
| Server.ReceiveFileData | server.py:103-108 | the data held followed by what stays pending is the stream; the data only grows; it overshoots the announced size by less than one receive |
| Server.ReceiveFileDataStops | server.py:104-107 | the loop ends holding at least the announced size, or with the connection closed and every byte received |
| Server.ReceiveFileDataExact | server.py:103-108 | on a stream of non-empty blocks of at most 1024 bytes announcing their total size, the loop takes in exactly all of them |
| Server.ReceiveFile | server.py:103-108 | the loop leaves the data and the socket as `ReceiveFileData` says, and sends nothing |
| Server.Xor | server.py:141 | no contract of its own: Python's `^`; `XorOnes` and `Flip` specify it |
| Server.XorOnes | server.py:141 | XOR with `k` one bits complements every `k`-bit number |
| Server.Flip | server.py:141 | `b ^ 0xFF` is `0xFF - b` for a byte |
| Server.CorruptData | server.py:137-142 | the length is kept; empty data is returned as it is; otherwise the byte at the drawn index is flipped and differs from the original; every other byte is kept; non-empty data always changes |
| Server.CorruptTwice | server.py:141 | corrupting twice at the same draw restores the data |
| Server.HeaderFields | server.py:123 | a header is its own strip, splits into its three numbers, and its third field reads back as the chunk length |
| Server.HeaderText | server.py:123 | no contract of its own: `HeaderFields`, `HeaderAscii` and `HeaderNonEmpty` specify it |
| Server.HeaderAscii | server.py:123-124 | a header is ASCII |
| Server.HeaderNonEmpty | server.py:124 | a header frame is never empty |
| Server.Headers | server.py:122-123 | no contract of its own: `HeadersDrop` and `ReplyFramesShape` specify it |
| Server.ReplyFrames | server.py:122-125 | no contract of its own: `ReplyFramesShape`, `ReplyFramesHead`, `ReplyFramesStep` and `SendChunks` specify it |
| Server.InterleaveLength | server.py:122-125 | each chunk contributes two frames |
| Server.InterleaveDrop | server.py:122-125 | past the frames of the first `j` chunks come exactly the frames of the others |
| Server.InterleaveAt | server.py:122-125 | frame `2j` is header `j` and frame `2j+1` is chunk `j` |
| Server.HeadersDrop | server.py:122-123 | the headers from chunk `j` on are those of the remaining chunks, numbered on from `seqNum + j` |
| Server.NumberedDrop | server.py:122-123 | for any way of making a frame from a chunk's number and length, the frames from chunk `j` on are those of the remaining chunks, numbered on from `seqNum + j` |
| Server.ReplyFramesHead | server.py:122-125 | the frames of the first chunk come first: its header, then its bytes |
| Server.ReplyFramesShape | server.py:122-125 | there are two frames per chunk; frame `2j` is the header numbered `seqNum + j` with chunk `j`'s length; frame `2j+1` is chunk `j` |
| Server.ReplyFramesStep | server.py:122-125 | the frames from chunk `i` on are its header and bytes, then those of the chunks after it, numbered on |
| Server.SendStep | server.py:123-125 | one pass of the loop sends chunk `seqNum`'s header and bytes, so what was sent plus the frames still to come is unchanged |
| Server.SendChunks | server.py:122-125 | the loop appends exactly the reply frames of all chunks in order, and receives nothing |
| Server.HandleClient | server.py:91-128 | outcome, frames sent and frames left unread are those of `HandleSpec` |
| Server.HandleSpec | server.py:91-128 | no contract of its own: `HandleClient`, `AckIffMetadataParses` and `Session.ServerReceivesUpload` specify it |
| Server.ServeFile | server.py:103-128 | no contract of its own: `ServedData` and `ReplyAllShape` specify it |
| Server.ReplyAll | server.py:100-128 | no contract of its own: `ReplyAllStarts` and `ReplyAllShape` specify it |
| Server.AckIffMetadataParses | server.py:94-100 | the file is served exactly when the metadata parses, that is, exactly when the first read decodes, its stripped text splits on `\|` into two fields and `int()` reads the second; then the first frame sent is `ACK`; otherwise nothing is sent and no further input is read |
| Server.ClosedBeforeMetadata | server.py:94-96 | a peer that closes before sending metadata is refused (one field) and is sent nothing |
| Server.ReplyAllStarts | server.py:100 | the reply starts with the `ACK` frame |
| Server.ReplyAllShape | server.py:116-128 | after `ACK` come the header and chunk frames of the data, whose chunks concatenate to it; then the digest, unless it is empty |
| Server.ServedData | server.py:103-116 | the served digest is that of the data held; that data has the received length; it differs from what was received exactly when the fault fired on non-empty data |
| Client.Reassemble | client.py:38-51 | data reassembled earlier is kept as a prefix; only a decode error, a non-integer size, a size outside `Py_ssize_t` or a negative size ends the loop with an error; a normal end comes on an empty header or one without three fields |
| Client.ReassembleClosed | client.py:41-43 | on a closed connection the empty read ends the loop with no error and no data added |
| Client.ReassembleNotText | client.py:41 | a header read that is the encoding of no text ends the loop with the decoding error, consuming the read and adding no data |
| Client.ReassembleStops | client.py:41-46 | an empty header or one without three fields ends the loop: that frame is consumed and adds no data |
| Client.ReassembleAppends | client.py:44-51 | a three-field header with a count `n` from 0 to `SSIZE_MAX` appends the next receive of at most `n` bytes and the loop goes on |
| Client.ReassembleRefusesSize | client.py:48-50 | a three-field header whose count is not an integer, lies outside `Py_ssize_t`, or is negative ends the loop with that exception, consuming the header and adding nothing |
| Client.Finish | client.py:53-61 | a loop error is reported as it is, with the frames left as the loop left them; otherwise the outcome and frames left are those of `Verdict`; `Verified` carries the digest of the reassembled data; `Mismatch` carries it as computed, different from the expected checksum |
| Client.Verdict | client.py:53-61 | one frame is consumed; it fails exactly when that frame is not text; otherwise the checksum is its stripped text, the outcome is `Verified` exactly when the digest of the data equals it, and `Mismatch` carries it and the digest |
| Client.SendFile | client.py:30-35 | the loop sends exactly the 1024-byte chunks of the file, in order, and receives nothing |
| Client.ReadStep | client.py:31-35 | a non-empty `file.read(CHUNK_SIZE)` at an offset is the first 1024-byte chunk of what is left, and the rest of the reads chunk what follows it |
| Client.ReceiveChunks | client.py:38-51 | the loop leaves data, error, terminating header and socket as `Reassemble` says, and sends nothing |
| Client.VerifyChecksum | client.py:53-61 | the checksum step reports and consumes as `Verdict` says, and sends nothing |
| Client.UploadFile | client.py:14-61 | outcome, reassembled data, frames sent and frames left are those of `UploadSpec` |
| Client.MetadataText | client.py:21 | no contract of its own: `Session.MetadataParts` and `Session.MetadataRoundTrip` specify it |
| Client.UploadSpec | client.py:14-61 | no contract of its own: `UploadFile`, `UploadSends`, `UploadChecksum` and `VerdictMeansDigest` specify it |
| Client.Acknowledged | client.py:25-26 | no contract of its own: the test that the stripped reply reads `ACK`; `UploadSends` states that the file is sent exactly when it holds and the ACK error arises exactly when it does not |
| Client.UploadSends | client.py:20-35 | the metadata always goes first; the file's blocks, which concatenate to the file, follow exactly when the reply was `ACK`; an ACK error arises exactly when it was not |
| Client.UploadChecksum | client.py:53-61 | after `ACK` and a loop without exception, the checksum is the stripped text of the frame received after the one that ended the loop; the upload reports `Verified` exactly when the digest equals it and `Mismatch` carries it |
| Client.VerdictMeansDigest | client.py:56-61 | a verdict is about the reassembled data and is reached only after an `ACK` |
| Client.FinishCorrected | client.py:41-46 | with the frame that ended the loop taken as the checksum, the result is `Verified` exactly when no error arose and the digest equals that frame |
| Client.UploadCorrected | client.py:14-61 | no contract of its own: `Session.TransferCorrected` specifies it |
| Session.ParseMetadataFrame | server.py:94-96 | the server reads the client's metadata: a name with `\|` gives too many fields; any other name comes back with its leading whitespace stripped, together with the size |
| Session.ParseFields | server.py:94-96 | the same for any size field that has no whitespace or `\|` and that `int()` reads |
| Session.FieldsMany | server.py:95-96 | a name containing `\|` makes the metadata split into three or more fields, which is refused |
| Session.FieldsNameSize | server.py:95-96 | a name without `\|` and a size `int()` reads give back that name and size |
| Session.MetadataParts | server.py:94-95 | the stripped metadata's fields are the name's, then the size |
| Session.MetadataRoundTrip | client.py:20-22 | a name without `\|` and without leading whitespace arrives intact, with its size |
| Session.ReassembleReplies | client.py:38-51 | the server's header and chunk frames reassemble to the concatenated chunks, when each header fits one receive |
| Session.ReassembleOneReply | client.py:41-51 | one header frame and its chunk add exactly that chunk |
| Session.ReplyFramesCons | server.py:122-125 | the reply frames split into the first header and chunk, then the rest |
| Session.ReassembleHeader | client.py:41-51 | any header the loop accepts, followed by a chunk of the announced length, adds that chunk |
| Session.ChunkHeadersFit | server.py:123 | every header fits one 1024-byte receive when the id and twice the digits of the length leave room for two separators |
| Session.HexDigestFrame | server.py:128 | a hex digest frame is 64 bytes, decodes to itself, is its own strip, and is one field |
| Session.AckFrame | server.py:100 | the `ACK` frame is 3 bytes and reads back as `ACK` |
| Session.ServerReceivesUpload | server.py:91-128 | on the client's frames the server serves the file under its name and size, replies with `ACK`, the chunks of what it holds and their digest, and leaves no input |
| Session.ClientReassemblesReply | client.py:38-51 | after `ACK` the client reassembles exactly the server's data and ends its loop on the digest frame |
| Session.ClientSendsUpload | client.py:20-35 | after an `ACK` the client sends exactly the metadata and the file's blocks |
| Session.TransferAsWritten | client.py:38-61 | a transfer as written: the server serves the file; the client gets back exactly what the server holds; the client reports `Mismatch("", digest)` |
| Session.TransferCorrected | client.py:38-61 | with the corrected end the transfer verifies on the server's digest, even when the fault fired; the data returned differs from the file exactly when non-empty data was corrupted |

## Left out

- The standard library is modelled only as far as the core uses it. Accepting connections,
  `Server.start`, the thread per client, the lock, the `clients` map and `Client.__init__`
  are not modelled (server.py:86-89 and 144-159, client.py:9-12 and 68-71). These parts
  only set up connections.
- `connect()` and `close()` are not modelled. An empty `inbox` stands for a peer that has
  closed. A receive that would block is not modelled.
- `print` calls are left out. The outcomes they report are returned as `ServerOutcome` and
  `Outcome` values.
- `simulate_network_error()` and `random.randint` are parameters. No probability is modelled.
- `hashlib.sha256(...).hexdigest()` is the parameter `digest`.
- `os.path.basename`, `os.path.getsize`, `open` and `file.read` are left out. The file's name
  and contents are inputs, and its size is the length of those contents.
- TCP can merge two sends into one segment or split one send across segments; this is not
  modelled. The model assumes every frame arrives on its own. A receive may still take a
  prefix of a frame.
- `send` is assumed to send everything. A partial send is not modelled.
- Exceptions that `send` or `recv` can raise (a reset connection) are not modelled.
- Text.ParseInt: accepts only ASCII digits, while `int()` also accepts non-ASCII Unicode
  decimal digits. Its whitespace trimming follows `int()`, not `strip()`: the separators
  U+001C..U+001F are not trimmed.
- Client.Reassemble: a count within `Py_ssize_t` that is too large to allocate makes `recv()`
  raise MemoryError. This depends on the machine's memory and is not modelled. The model
  receives at most what the next frame holds. Its count limit is that of a 64-bit platform.
- Client.UploadSpec: a file's base name is a string of Unicode scalar values. A name with
  lone surrogates, which Python makes from undecodable bytes in a path, makes
  `metadata.encode()` raise UnicodeEncodeError. Dafny's `char` cannot hold such a name, so
  that path is not modelled.
- The commented-out earlier server (server.py:1-76) is not part of this model.
- Session.TransferAsWritten: assumes the proviso every session lemma needs, and is proved only
  under it.
  - Proviso: the name has no `|` and no leading whitespace.
  - Proviso: the metadata and every header fit a 1024-byte receive.
  - Proviso: the digest is a 64-digit lower-case hex string, as SHA-256 gives.
- Session.TransferCorrected: the same proviso as Session.TransferAsWritten.
- Session.ReassembleReplies: requires each header to fit one receive, and each chunk to be
  non-empty. The server never sends an empty chunk.

## Findings

| source | as written | input that shows it | evidently intended | confidence | as-written member | corrected member |
|---|---|---|---|---|---|---|
| client.py:41-46, 54 | The loop reads the server's digest frame as a header. That frame fails the three-field test and ends the loop, and it is dropped. The checksum is then read by one more receive, which on the closed connection yields `""`. | Any upload the server serves, for example a file of 20 bytes: the client reports `Mismatch("", sha256(data))` | The frame that ends the loop is the checksum, so the client verifies what it reassembled. | not executed | Session.TransferAsWritten | Session.TransferCorrected |
