/**
 * The responder: `Server.handle_client` and `Server.corrupt_data` of server.py.
 *
 * The handler reads the `"name|size"` metadata frame, acknowledges it,
 * accumulates the file, optionally corrupts one byte, digests the result and
 * sends it back as `"client_id|seq|len"` header frames each followed by its
 * chunk, then the digest as a text frame. The random draws of the source
 * (`simulate_network_error()` and `random.randint`) are the parameters
 * `faultInjected` and `pick`; SHA-256 is the parameter `digest`.
 */
module Server {
  import opened Wrappers
  import opened Seqs
  import opened Wire
  import opened Utf8
  import opened Text
  import opened Chunking

  /** The exceptions that end the handler before it acknowledges. */
  datatype ServerError =
    | MetadataNotText             // UnicodeDecodeError from decode()
    | FieldCount(fields: nat)     // unpacking split("|") into two names
    | SizeNotInteger              // ValueError from int()

  datatype ServerOutcome =
    | Served(fileName: string, fileSize: int, checksum: string)
    | Aborted(error: ServerError)

  /** Parsing of the metadata frame: decode, strip, split on `|`, `int()` the size. */
  function ParseMetadata(frame: Bytes): (r: Result<(string, int), ServerError>)
  {
    match Decode(frame)
    case None => Err(MetadataNotText)
    case Some(text) =>
      var parts := Split(Strip(text), '|');
      if |parts| != 2 then Err(FieldCount(|parts|))
      else
        match ParseInt(parts[1])
        case None => Err(SizeNotInteger)
        case Some(size) => Ok((parts[0], size))
  }

  /** Metadata whose stripped text splits into a name and a size field is decided by `int()` of that field. */
  lemma ParseMetadataFields(frame: Bytes, text: string, name: string, size: string)
    requires Decode(frame) == Some(text) && Split(Strip(text), '|') == [name, size]
    ensures ParseInt(size).None? ==> ParseMetadata(frame) == Err(SizeNotInteger)
    ensures ParseInt(size).Some? ==> ParseMetadata(frame) == Ok((name, ParseInt(size).value))
  {
  }

  /**
   * A size field that starts with U+001C is refused: `strip()` keeps that
   * character, since it is inside the text, and `int()` does not trim it.
   * Such metadata is not acknowledged.
   */
  lemma MetadataSeparatorRefused(name: string, d: char)
    requires name != [] && !IsSpace(name[0]) && '|' !in name && IsDigit(d)
    ensures ParseMetadata(Encode(name + "|" + ['\U{1C}', d])) == Err(SizeNotInteger)
  {
    var u := ['\U{1C}', d];
    var t := name + "|" + u;
    assert Decode(Encode(t)) == Some(t) by { DecodeEncode(t); }
    assert Strip(t) == t by {
      DigitNotSpace(d);
      assert t[0] == name[0] && t[|t| - 1] == d;
      StripNoop(t);
    }
    assert Split(t, '|') == [name, u] by {
      SplitFree(u, '|');
      assert t == name + ['|'] + u;
      SplitCons(name, u, '|');
    }
    assert ParseInt(u) == None by {
      DigitNotSpace(d);
      IntStripKeeps('\U{1C}', d);
      ParseRefuses(u);
    }
    ParseMetadataFields(Encode(t), t, name, u);
  }

  /** A frame that is not the UTF-8 encoding of any text is refused by `decode()`. */
  lemma MetadataNotUtf8(frame: Bytes)
    requires forall s :: Encode(s) != frame
    ensures ParseMetadata(frame) == Err(MetadataNotText)
  {
    if Decode(frame).Some? {
      EncodeDecode(frame);
      assert Encode(Decode(frame).value) == frame;
    }
  }

  /**
   * Text without `|` is a single field, which cannot be unpacked into a name
   * and a size; the empty frame of a peer that closed is such text.
   */
  lemma MetadataWithoutSeparator(frame: Bytes, text: string)
    requires Decode(frame) == Some(text) && '|' !in text
    ensures ParseMetadata(frame) == Err(FieldCount(1))
  {
    StripBounds(text);
    var t := Strip(text);
    assert '|' !in t by {
      forall i | 0 <= i < |t| ensures t[i] != '|' {
        assert t[i] == text[|text| - |LStrip(text)| + i];
      }
    }
    SplitFree(t, '|');
  }

  // ------------------------------------------------------------ receiving

  /**
   * The receive loop: `recv(CHUNK_SIZE)` and append while fewer than
   * `fileSize` bytes are held, stopping early on an empty receive. The result
   * is the data held at the end and the frames still pending.
   */
  function ReceiveFileData(inbox: seq<Bytes>, fileSize: int, acc: Bytes): (r: (Bytes, seq<Bytes>))
    ensures r.0 + Flatten(r.1) == acc + Flatten(inbox)
    ensures |acc| <= |r.0| && r.0[..|acc|] == acc
    ensures |acc| < fileSize ==> |r.0| < fileSize + CHUNK_SIZE
    decreases Measure(inbox)
  {
    if |acc| >= fileSize then (acc, inbox)
    else
      var (piece, rest) := Receive(inbox, CHUNK_SIZE);
      if piece == [] then (acc, rest)
      else
        var r := ReceiveFileData(rest, fileSize, acc + piece);
        assert (acc + piece)[..|acc|] == acc;
        r
  }

  /**
   * The loop ends only with at least `fileSize` bytes held or with the peer's
   * frames exhausted, so a short result means the upload was truncated.
   */
  lemma {:induction false} ReceiveFileDataStops(inbox: seq<Bytes>, fileSize: int, acc: Bytes)
    requires NonEmptyFrames(inbox)
    ensures var r := ReceiveFileData(inbox, fileSize, acc);
      |r.0| >= fileSize || (r.1 == [] && r.0 == acc + Flatten(inbox))
    decreases Measure(inbox)
  {
    if |acc| < fileSize && inbox != [] {
      var (piece, rest) := Receive(inbox, CHUNK_SIZE);
      assert piece != [];
      assert NonEmptyFrames(rest) by {
        if |inbox[0]| <= CHUNK_SIZE {
          assert rest == inbox[1..];
        } else {
          assert rest == [inbox[0][CHUNK_SIZE..]] + inbox[1..];
        }
      }
      ReceiveFileDataStops(rest, fileSize, acc + piece);
    }
  }

  /**
   * When the pending frames are the uploaded blocks of at most CHUNK_SIZE
   * bytes each and `fileSize` is their total, the loop receives exactly them.
   */
  lemma {:induction false} ReceiveFileDataExact(blocks: seq<Bytes>, acc: Bytes)
    requires NonEmptyFrames(blocks)
    requires forall i :: 0 <= i < |blocks| ==> |blocks[i]| <= CHUNK_SIZE
    ensures ReceiveFileData(blocks, |acc| + |Flatten(blocks)|, acc) == (acc + Flatten(blocks), [])
    decreases |blocks|
  {
    var size := |acc| + |Flatten(blocks)|;
    if blocks == [] {
      assert acc + Flatten(blocks) == acc;
    } else {
      var piece, rest := blocks[0], blocks[1..];
      assert Receive(blocks, CHUNK_SIZE) == (piece, rest);
      assert Flatten(blocks) == piece + Flatten(rest);
      assert |acc + piece| + |Flatten(rest)| == size;
      assert forall i :: 0 <= i < |rest| ==> |rest[i]| <= CHUNK_SIZE by {
        forall i | 0 <= i < |rest| ensures |rest[i]| <= CHUNK_SIZE {
          assert rest[i] == blocks[i + 1];
        }
      }
      ReceiveFileDataExact(rest, acc + piece);
      assert ReceiveFileData(blocks, size, acc) == ReceiveFileData(rest, size, acc + piece);
      SeqAssoc(acc, piece, Flatten(rest));
    }
  }

  // ------------------------------------------------------------ corrupting

  /** Python's `^` on non-negative integers: exclusive or, one binary digit at a time. */
  function Xor(a: nat, b: nat): (r: nat)
    decreases a + b
  {
    if a == 0 && b == 0 then 0
    else 2 * Xor(a / 2, b / 2) + (if a % 2 == b % 2 then 0 else 1)
  }

  function Pow2(k: nat): (r: nat)
    ensures r >= 1
  {
    if k == 0 then 1 else 2 * Pow2(k - 1)
  }

  /** Exclusive or with `k` one bits complements a `k`-bit number. */
  lemma {:induction false} XorOnes(a: nat, k: nat)
    requires a < Pow2(k)
    ensures Xor(a, Pow2(k) - 1) == Pow2(k) - 1 - a
  {
    if k > 0 {
      var ones := Pow2(k) - 1;
      assert ones / 2 == Pow2(k - 1) - 1 && ones % 2 == 1;
      XorOnes(a / 2, k - 1);
    }
  }

  /** `b ^ 0xFF`: every bit of the byte flipped, which is `0xFF - b`. */
  function Flip(b: byte): (r: byte)
    ensures r as int == 0xFF - b as int
  {
    assert Pow2(8) - 1 == 0xFF;
    XorOnes(b as nat, 8);
    Xor(b as nat, 0xFF) as byte
  }

  /**
   * `corrupt_data`: flip every bit of the byte at the drawn index; empty data
   * is returned as it is. `pick` stands for the draw of `random.randint`, so
   * the index is `pick % |data|`, any position of `data`.
   */
  function CorruptData(data: Bytes, pick: nat): (r: Bytes)
    ensures |r| == |data|
    ensures data == [] ==> r == data
    ensures data != [] ==> var k := pick % |data|;
      r[k] == Flip(data[k]) && r[k] != data[k]
      && (forall i :: 0 <= i < |data| && i != k ==> r[i] == data[i])
    ensures data != [] ==> r != data
  {
    if data == [] then data
    else
      var k := pick % |data|;
      data[..k] + [Flip(data[k])] + data[k + 1..]
  }

  /** Corrupting the same position twice restores the data. */
  lemma CorruptTwice(data: Bytes, pick: nat)
    ensures CorruptData(CorruptData(data, pick), pick) == data
  {
    var once := CorruptData(data, pick);
    var twice := CorruptData(once, pick);
    if data != [] {
      assert |twice| == |data|;
      forall i | 0 <= i < |data| ensures twice[i] == data[i] {
      }
    }
  }

  // ------------------------------------------------------------ sending back

  /** `f"{client_id}|{seq_num}|{len(chunk)}"`. */
  function HeaderText(clientId: int, seqNum: int, length: int): (r: string)
  {
    FormatInt(clientId) + "|" + FormatInt(seqNum) + "|" + FormatInt(length)
  }

  /** A header has no surrounding whitespace and splits into its three numbers. */
  lemma HeaderFields(clientId: int, seqNum: int, length: int)
    ensures Strip(HeaderText(clientId, seqNum, length)) == HeaderText(clientId, seqNum, length)
    ensures Split(HeaderText(clientId, seqNum, length), '|')
         == [FormatInt(clientId), FormatInt(seqNum), FormatInt(length)]
    ensures ParseInt(Split(HeaderText(clientId, seqNum, length), '|')[2]) == Some(length)
  {
    HeaderStrip(clientId, seqNum, length);
    HeaderSplit(clientId, seqNum, length);
    ParseFormat(length);
  }

  lemma HeaderStrip(clientId: int, seqNum: int, length: int)
    ensures Strip(HeaderText(clientId, seqNum, length)) == HeaderText(clientId, seqNum, length)
  {
    var a, c := FormatInt(clientId), FormatInt(length);
    var h := HeaderText(clientId, seqNum, length);
    FormatIntChars(clientId);
    FormatIntChars(length);
    assert h[0] == a[0] && h[|h| - 1] == c[|c| - 1];
    StripNoop(h);
  }

  lemma HeaderSplit(clientId: int, seqNum: int, length: int)
    ensures Split(HeaderText(clientId, seqNum, length), '|')
         == [FormatInt(clientId), FormatInt(seqNum), FormatInt(length)]
  {
    var a, b, c := FormatInt(clientId), FormatInt(seqNum), FormatInt(length);
    FormatIntChars(clientId);
    FormatIntChars(seqNum);
    FormatIntChars(length);
    SplitFree(c, '|');
    SplitCons(b, c, '|');
    SplitCons(a, b + "|" + c, '|');
    assert HeaderText(clientId, seqNum, length) == a + "|" + (b + "|" + c);
  }

  /** A header is ASCII, so its frame has one byte per character. */
  lemma HeaderAscii(clientId: int, seqNum: int, length: int)
    ensures IsAscii(HeaderText(clientId, seqNum, length))
  {
    var a, b, c := FormatInt(clientId), FormatInt(seqNum), FormatInt(length);
    FormatIntChars(clientId);
    FormatIntChars(seqNum);
    FormatIntChars(length);
    AsciiAppend(a, "|");
    AsciiAppend(a + "|", b);
    AsciiAppend(a + "|" + b, "|");
    AsciiAppend(a + "|" + b + "|", c);
  }

  lemma HeaderNonEmpty(clientId: int, seqNum: int, length: int)
    ensures Encode(HeaderText(clientId, seqNum, length)) != []
  {
    EncodeEmpty(HeaderText(clientId, seqNum, length));
  }

  /** One frame per chunk, made by `frame` from the chunk's number, counted from `seqNum`, and its length. */
  function Numbered(frame: (int, int) -> Bytes, chunks: seq<Bytes>, seqNum: int): (r: seq<Bytes>)
    ensures |r| == |chunks|
  {
    seq(|chunks|, j requires 0 <= j < |chunks| => frame(seqNum + j, |chunks[j]|))
  }

  /** The frames from chunk `j` on are those of the remaining chunks, numbered on from `seqNum + j`. */
  lemma NumberedDrop(frame: (int, int) -> Bytes, chunks: seq<Bytes>, seqNum: int, j: nat)
    requires j <= |chunks|
    ensures Numbered(frame, chunks, seqNum)[j..] == Numbered(frame, chunks[j..], seqNum + j)
  {
    var a := Numbered(frame, chunks, seqNum)[j..];
    var b := Numbered(frame, chunks[j..], seqNum + j);
    forall i | 0 <= i < |b| ensures a[i] == b[i] {
      assert chunks[j..][i] == chunks[j + i] && seqNum + (j + i) == seqNum + j + i;
    }
  }

  /** The header frame of a chunk from its number and length. */
  function HeaderFrame(clientId: int): (frame: (int, int) -> Bytes)
  {
    (seqNum: int, length: int) => Encode(HeaderText(clientId, seqNum, length))
  }

  /** The header frame of each chunk, numbered from `seqNum`. */
  function Headers(clientId: int, chunks: seq<Bytes>, seqNum: int): (r: seq<Bytes>)
  {
    Numbered(HeaderFrame(clientId), chunks, seqNum)
  }

  /** Each header frame followed by its chunk, in order. */
  function Interleave(headers: seq<Bytes>, chunks: seq<Bytes>): (r: seq<Bytes>)
    requires |headers| == |chunks|
    decreases |chunks|
  {
    if chunks == [] then []
    else [headers[0], chunks[0]] + Interleave(headers[1..], chunks[1..])
  }

  /** The header and payload frames for `chunks`, numbered from `seqNum`. */
  function ReplyFrames(clientId: int, chunks: seq<Bytes>, seqNum: int): (r: seq<Bytes>)
  {
    Interleave(Headers(clientId, chunks, seqNum), chunks)
  }

  lemma {:induction false} InterleaveLength(headers: seq<Bytes>, chunks: seq<Bytes>)
    requires |headers| == |chunks|
    ensures |Interleave(headers, chunks)| == 2 * |chunks|
    decreases |chunks|
  {
    if chunks != [] {
      InterleaveLength(headers[1..], chunks[1..]);
    }
  }

  /** Past the frames of the first `j` chunks come the frames of the others. */
  lemma {:induction false} InterleaveDrop(headers: seq<Bytes>, chunks: seq<Bytes>, j: nat)
    requires |headers| == |chunks| && j <= |chunks|
    ensures 2 * j <= |Interleave(headers, chunks)|
    ensures Interleave(headers, chunks)[2 * j..] == Interleave(headers[j..], chunks[j..])
    decreases j
  {
    InterleaveLength(headers, chunks);
    var f := Interleave(headers, chunks);
    if j == 0 {
      assert f[0..] == f && headers[0..] == headers && chunks[0..] == chunks;
    } else {
      InterleaveDrop(headers[1..], chunks[1..], j - 1);
      assert f[2..] == Interleave(headers[1..], chunks[1..]);
      assert f[2..][2 * (j - 1)..] == f[2 * j..] by { DropDrop(f, 2, 2 * (j - 1)); }
      assert headers[1..][j - 1..] == headers[j..] by { DropDrop(headers, 1, j - 1); }
      assert chunks[1..][j - 1..] == chunks[j..] by { DropDrop(chunks, 1, j - 1); }
    }
  }

  /** Frame 2j is header j and frame 2j+1 is chunk j. */
  lemma InterleaveAt(headers: seq<Bytes>, chunks: seq<Bytes>, j: nat)
    requires |headers| == |chunks| && j < |chunks|
    ensures 2 * j + 1 < |Interleave(headers, chunks)|
    ensures Interleave(headers, chunks)[2 * j] == headers[j]
    ensures Interleave(headers, chunks)[2 * j + 1] == chunks[j]
  {
    var f := Interleave(headers, chunks);
    InterleaveDrop(headers, chunks, j);
    assert f[2 * j..] == [headers[j..][0], chunks[j..][0]] + Interleave(headers[j..][1..], chunks[j..][1..]);
    assert f[2 * j] == f[2 * j..][0] && f[2 * j + 1] == f[2 * j..][1];
  }

  /** The headers from chunk `j` on are those of the remaining chunks, numbered on. */
  lemma HeadersDrop(clientId: int, chunks: seq<Bytes>, seqNum: int, j: nat)
    requires j <= |chunks|
    ensures Headers(clientId, chunks, seqNum)[j..] == Headers(clientId, chunks[j..], seqNum + j)
  {
    NumberedDrop(HeaderFrame(clientId), chunks, seqNum, j);
  }


  /** The frames of the first chunk come first. */
  lemma ReplyFramesHead(clientId: int, chunks: seq<Bytes>, seqNum: int)
    requires chunks != []
    ensures ReplyFrames(clientId, chunks, seqNum)
         == [Encode(HeaderText(clientId, seqNum, |chunks[0]|)), chunks[0]]
            + ReplyFrames(clientId, chunks[1..], seqNum + 1)
  {
    var h := Headers(clientId, chunks, seqNum);
    HeadersDrop(clientId, chunks, seqNum, 1);
    assert h[0] == Encode(HeaderText(clientId, seqNum + 0, |chunks[0]|));
  }

  /**
   * Frame 2j is the header of chunk j, numbered `seqNum + j` and carrying its
   * length, and frame 2j+1 is that chunk.
   */
  lemma ReplyFramesShape(clientId: int, chunks: seq<Bytes>, seqNum: int)
    ensures |ReplyFrames(clientId, chunks, seqNum)| == 2 * |chunks|
    ensures forall j :: 0 <= j < |chunks| ==>
      ReplyFrames(clientId, chunks, seqNum)[2 * j]
        == Encode(HeaderText(clientId, seqNum + j, |chunks[j]|))
      && ReplyFrames(clientId, chunks, seqNum)[2 * j + 1] == chunks[j]
  {
    var h := Headers(clientId, chunks, seqNum);
    InterleaveLength(h, chunks);
    forall j | 0 <= j < |chunks|
      ensures ReplyFrames(clientId, chunks, seqNum)[2 * j]
           == Encode(HeaderText(clientId, seqNum + j, |chunks[j]|))
      ensures ReplyFrames(clientId, chunks, seqNum)[2 * j + 1] == chunks[j]
    {
      InterleaveAt(h, chunks, j);
      assert h[j] == Encode(HeaderText(clientId, seqNum + j, |chunks[j]|));
    }
  }

  /** The frames from chunk `i` on: its header and its bytes, then those of the chunks after it. */
  lemma ReplyFramesStep(clientId: int, chunks: seq<Bytes>, seqNum: int, i: nat)
    requires i < |chunks|
    ensures ReplyFrames(clientId, chunks[i..], seqNum)
         == [Encode(HeaderText(clientId, seqNum, |chunks[i]|)), chunks[i]]
            + ReplyFrames(clientId, chunks[i + 1..], seqNum + 1)
  {
    DropDrop(chunks, i, 1);
    ReplyFramesHead(clientId, chunks[i..], seqNum);
  }

  // ------------------------------------------------------------ the handler

  /** What one run of the handler does: its outcome, what it sent, what it left unread. */
  datatype ServerRun = ServerRun(outcome: ServerOutcome, sent: seq<Bytes>, rest: seq<Bytes>)

  /** The handler, as a function of the client's frames and the random draws. */
  function HandleSpec(clientId: int, inbox: seq<Bytes>, faultInjected: bool, pick: nat,
                      digest: Bytes -> string): (run: ServerRun)
  {
    var first := Receive(inbox, RECV_SIZE);
    var parsed := ParseMetadata(first.0);
    if parsed.Err? then ServerRun(Aborted(parsed.error), [], first.1)
    else ServeFile(clientId, parsed.value.0, parsed.value.1, first.1, faultInjected, pick, digest)
  }

  /** The handler after a metadata frame that parsed into `fileName` and `fileSize`. */
  function ServeFile(clientId: int, fileName: string, fileSize: int, afterMeta: seq<Bytes>,
                     faultInjected: bool, pick: nat, digest: Bytes -> string): (run: ServerRun)
  {
    var received := ReceiveFileData(afterMeta, fileSize, []);
    var data := if faultInjected then CorruptData(received.0, pick) else received.0;
    ServerRun(Served(fileName, fileSize, digest(data)), ReplyAll(clientId, data, digest), received.1)
  }

  /** Everything sent after the metadata parsed: ACK, the chunk frames, the digest. */
  function ReplyAll(clientId: int, data: Bytes, digest: Bytes -> string): (r: seq<Bytes>)
  {
    Transmit([Encode(ACK)] + ReplyFrames(clientId, Chunks(data, CHUNK_SIZE), 0), Encode(digest(data)))
  }

  /** The receive loop of `handle_client`: accumulate until `fileSize` bytes or an empty read. */
  method ReceiveFile(sock: Socket, fileSize: int) returns (fileData: Bytes)
    modifies sock
    ensures (fileData, sock.inbox) == ReceiveFileData(old(sock.inbox), fileSize, [])
    ensures sock.outbox == old(sock.outbox)
  {
    fileData := [];
    while |fileData| < fileSize
      invariant ReceiveFileData(sock.inbox, fileSize, fileData)
             == ReceiveFileData(old(sock.inbox), fileSize, [])
      invariant sock.outbox == old(sock.outbox)
      decreases Measure(sock.inbox)
    {
      var chunk := sock.Recv(CHUNK_SIZE);
      if chunk == [] {
        break;
      }
      fileData := fileData + chunk;
    }
  }

  /** Sending chunk `seqNum` with its header moves its two frames from the pending reply to the sent ones. */
  lemma SendStep(before: seq<Bytes>, clientId: int, chunks: seq<Bytes>, seqNum: nat)
    requires seqNum < |chunks| && chunks[seqNum] != []
    ensures Transmit(Transmit(before, Encode(HeaderText(clientId, seqNum, |chunks[seqNum]|))), chunks[seqNum])
            + ReplyFrames(clientId, chunks[seqNum + 1..], seqNum + 1)
         == before + ReplyFrames(clientId, chunks[seqNum..], seqNum)
  {
    var header := Encode(HeaderText(clientId, seqNum, |chunks[seqNum]|));
    var rest := ReplyFrames(clientId, chunks[seqNum + 1..], seqNum + 1);
    HeaderNonEmpty(clientId, seqNum, |chunks[seqNum]|);
    TransmitTwo(before, header, chunks[seqNum]);
    ReplyFramesStep(clientId, chunks, seqNum, seqNum);
    SeqAssoc(before, [header, chunks[seqNum]], rest);
  }

  /** The send loop of `handle_client`: a header frame, then the chunk, for each chunk in order. */
  method SendChunks(sock: Socket, clientId: int, chunks: seq<Bytes>)
    requires NonEmptyFrames(chunks)
    modifies sock
    ensures sock.outbox == old(sock.outbox) + ReplyFrames(clientId, chunks, 0)
    ensures sock.inbox == old(sock.inbox)
  {
    var seqNum := 0;
    while seqNum < |chunks|
      invariant 0 <= seqNum <= |chunks|
      invariant sock.outbox + ReplyFrames(clientId, chunks[seqNum..], seqNum)
             == old(sock.outbox) + ReplyFrames(clientId, chunks, 0)
      invariant sock.inbox == old(sock.inbox)
    {
      var chunk := chunks[seqNum];
      var header := Encode(HeaderText(clientId, seqNum, |chunk|));
      SendStep(sock.outbox, clientId, chunks, seqNum);
      sock.Send(header);
      sock.Send(chunk);
      seqNum := seqNum + 1;
    }
    assert chunks[seqNum..] == [];
  }

  /** `Server.handle_client` on one connection. */
  method HandleClient(sock: Socket, clientId: int, faultInjected: bool, pick: nat,
                      digest: Bytes -> string)
    returns (outcome: ServerOutcome)
    modifies sock
    ensures var run := HandleSpec(clientId, old(sock.inbox), faultInjected, pick, digest);
      outcome == run.outcome && sock.outbox == old(sock.outbox) + run.sent && sock.inbox == run.rest
  {
    var metaRaw := sock.Recv(RECV_SIZE);
    var parsed := ParseMetadata(metaRaw);
    if parsed.Err? {
      outcome := Aborted(parsed.error);
      return;
    }
    var fileName, fileSize := parsed.value.0, parsed.value.1;
    ghost var afterMeta, out0 := sock.inbox, sock.outbox;
    EncodeEmpty(ACK);
    var ackFrame := Encode(ACK);
    sock.Send(ackFrame);
    assert sock.outbox == out0 + [ackFrame];
    var fileData := ReceiveFile(sock, fileSize);
    if faultInjected {
      fileData := CorruptData(fileData, pick);
    }
    var checksum := digest(fileData);
    var chunks := Chunks(fileData, CHUNK_SIZE);
    ChunkBounds(fileData, CHUNK_SIZE);
    SendChunks(sock, clientId, chunks);
    ghost var frames := ReplyFrames(clientId, chunks, 0);
    ghost var reply := [ackFrame] + frames;
    SeqAssoc(out0, [ackFrame], frames);
    sock.Send(Encode(checksum));
    TransmitAppend(out0, reply, Encode(checksum));
    assert sock.outbox == out0 + ReplyAll(clientId, fileData, digest);
    outcome := Served(fileName, fileSize, checksum);
    assert ServeFile(clientId, fileName, fileSize, afterMeta, faultInjected, pick, digest)
        == ServerRun(outcome, ReplyAll(clientId, fileData, digest), sock.inbox);
  }

  /**
   * The handler acknowledges exactly when the metadata parses; otherwise it
   * sends nothing at all and reads nothing after the metadata frame.
   */
  lemma AckIffMetadataParses(clientId: int, inbox: seq<Bytes>, faultInjected: bool, pick: nat,
                             digest: Bytes -> string)
    ensures var run := HandleSpec(clientId, inbox, faultInjected, pick, digest);
      var first := Receive(inbox, RECV_SIZE);
      && (run.outcome.Served? <==> ParseMetadata(first.0).Ok?)
      && (run.outcome.Served? <==> run.sent != [] && run.sent[0] == Encode(ACK))
      && (run.outcome.Aborted? ==> run.sent == [] && run.rest == first.1)
      && (run.outcome.Served? <==>
            var text := Decode(first.0);
            && text.Some?
            && |Split(Strip(text.value), '|')| == 2
            && ParseInt(Split(Strip(text.value), '|')[1]).Some?)
  {
    var first := Receive(inbox, RECV_SIZE);
    var parsed := ParseMetadata(first.0);
    if parsed.Ok? {
      var received := ReceiveFileData(first.1, parsed.value.1, []).0;
      var data := if faultInjected then CorruptData(received, pick) else received;
      ReplyAllStarts(clientId, data, digest);
    }
  }

  /**
   * A peer that closes without sending metadata gets nothing back: the empty
   * read is one field, so the handler aborts before acknowledging.
   */
  lemma ClosedBeforeMetadata(clientId: int, faultInjected: bool, pick: nat, digest: Bytes -> string)
    ensures HandleSpec(clientId, [], faultInjected, pick, digest) == ServerRun(Aborted(FieldCount(1)), [], [])
  {
    MetadataWithoutSeparator([], []);
  }

  lemma ReplyAllStarts(clientId: int, data: Bytes, digest: Bytes -> string)
    ensures ReplyAll(clientId, data, digest) != []
    ensures ReplyAll(clientId, data, digest)[0] == Encode(ACK)
  {
    var frames := [Encode(ACK)] + ReplyFrames(clientId, Chunks(data, CHUNK_SIZE), 0);
    assert frames[0] == Encode(ACK);
  }

  /**
   * What a served run sends: the acknowledgement, one header and one payload
   * per chunk of the (possibly corrupted) data, then that data's digest. The
   * payloads concatenate to exactly the bytes that were digested.
   */
  lemma ReplyAllShape(clientId: int, data: Bytes, digest: Bytes -> string)
    ensures var chunks := Chunks(data, CHUNK_SIZE);
      var sent := ReplyAll(clientId, data, digest);
      && Flatten(chunks) == data
      && |sent| >= 1 + 2 * |chunks|
      && sent[..1 + 2 * |chunks|] == [Encode(ACK)] + ReplyFrames(clientId, chunks, 0)
      && sent[1 + 2 * |chunks|..] == (if digest(data) == "" then [] else [Encode(digest(data))])
  {
    var chunks := Chunks(data, CHUNK_SIZE);
    var frames := [Encode(ACK)] + ReplyFrames(clientId, chunks, 0);
    FlattenChunks(data, CHUNK_SIZE);
    ReplyFramesShape(clientId, chunks, 0);
    EncodeEmpty(digest(data));
    assert |frames| == 1 + 2 * |chunks|;
  }

  /**
   * The data of a served run is what was received, corrupted at one position
   * when a fault was injected into non-empty data, and the checksum in the
   * outcome is its digest.
   */
  lemma ServedData(clientId: int, fileName: string, fileSize: int, afterMeta: seq<Bytes>,
                   faultInjected: bool, pick: nat, digest: Bytes -> string)
    ensures var run := ServeFile(clientId, fileName, fileSize, afterMeta, faultInjected, pick, digest);
      var received := ReceiveFileData(afterMeta, fileSize, []).0;
      var data := if faultInjected then CorruptData(received, pick) else received;
      && run.outcome == Served(fileName, fileSize, digest(data))
      && run.sent == ReplyAll(clientId, data, digest)
      && |data| == |received|
      && (faultInjected && received != [] <==> data != received)
  {
  }
}
