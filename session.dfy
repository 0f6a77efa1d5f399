/**
 * One upload end to end: the client's frames are the server's input and the
 * server's frames the client's. The lemmas here say what the two programs
 * do together: how the metadata parses on the server, how the reply frames
 * reassemble on the client, and which verdict a transfer ends in.
 */
module Session {
  import opened Wrappers
  import opened Seqs
  import opened Wire
  import opened Utf8
  import opened Text
  import opened Chunking
  import opened Server
  import opened Client

  // ------------------------------------------------------------ metadata

  /**
   * The server's reading of the client's metadata frame: a name holding a
   * `|` gives too many fields; any other comes back with its leading
   * whitespace stripped, together with the size.
   */
  lemma ParseMetadataFrame(fileName: string, fileSize: int)
    ensures '|' in fileName ==> var r := ParseMetadata(Encode(MetadataText(fileName, fileSize)));
      r.Err? && r.error.FieldCount? && r.error.fields >= 3
    ensures '|' !in fileName ==> ParseMetadata(Encode(MetadataText(fileName, fileSize))) == Ok((LStrip(fileName), fileSize))
  {
    var number := FormatInt(fileSize);
    FormatIntChars(fileSize);
    ParseFormat(fileSize);
    DecodeEncode(MetadataText(fileName, fileSize));
    ParseFields(Encode(MetadataText(fileName, fileSize)), fileName, number, fileSize);
  }

  /** The same, for any size field without whitespace or `|` that `int()` reads. */
  lemma ParseFields(frame: Bytes, fileName: string, number: string, fileSize: int)
    requires Decode(frame) == Some(fileName + "|" + number)
    requires number != [] && '|' !in number
    requires forall i :: 0 <= i < |number| ==> !IsSpace(number[i])
    requires ParseInt(number) == Some(fileSize)
    ensures '|' in fileName ==> var r := ParseMetadata(frame); r.Err? && r.error.FieldCount? && r.error.fields >= 3
    ensures '|' !in fileName ==> ParseMetadata(frame) == Ok((LStrip(fileName), fileSize))
  {
    MetadataParts(fileName, number);
    PipeKept(fileName);
    var name := LStrip(fileName);
    if '|' in name {
      FieldsMany(frame, fileName + "|" + number, name, number);
    } else {
      FieldsNameSize(frame, fileName + "|" + number, name, number, fileSize);
    }
  }

  /** A name field containing `|` makes too many fields. */
  lemma FieldsMany(frame: Bytes, text: string, name: string, number: string)
    requires Decode(frame) == Some(text)
    requires Split(Strip(text), '|') == Split(name, '|') + [number]
    requires '|' in name
    ensures var r := ParseMetadata(frame); r.Err? && r.error.FieldCount? && r.error.fields >= 3
  {
    SplitMany(name, '|');
  }

  /** A name field without `|` and a size field `int()` reads parse as themselves. */
  lemma FieldsNameSize(frame: Bytes, text: string, name: string, number: string, fileSize: int)
    requires Decode(frame) == Some(text)
    requires Split(Strip(text), '|') == Split(name, '|') + [number]
    requires '|' !in name && ParseInt(number) == Some(fileSize)
    ensures ParseMetadata(frame) == Ok((name, fileSize))
  {
    SplitFree(name, '|');
    var parts := Split(Strip(text), '|');
    assert parts == [name, number];
    assert |parts| == 2 && parts[0] == name && parts[1] == number;
  }

  lemma PipeKept(s: string)
    ensures ('|' in LStrip(s)) == ('|' in s)
  {
    LStripKeeps(s, '|');
  }

  lemma MetadataParts(fileName: string, number: string)
    requires number != [] && '|' !in number
    requires forall i :: 0 <= i < |number| ==> !IsSpace(number[i])
    ensures Split(Strip(fileName + "|" + number), '|') == Split(LStrip(fileName), '|') + [number]
  {
    var name := LStrip(fileName);
    SeqAssoc(fileName, "|", number);
    StripPrefix(fileName, "|" + number);
    SeqAssoc(name, "|", number);
    SplitAppend(name, number, '|');
    SplitFree(number, '|');
  }

  /** A name without `|` and without leading whitespace arrives intact. */
  lemma MetadataRoundTrip(fileName: string, fileSize: int)
    requires '|' !in fileName
    requires fileName == [] || !IsSpace(fileName[0])
    ensures ParseMetadata(Encode(MetadataText(fileName, fileSize))) == Ok((fileName, fileSize))
  {
    ParseMetadataFrame(fileName, fileSize);
  }

  // ------------------------------------------------------------ reply frames

  /** The frames that precede the payloads each fit in one text receive. */
  predicate HeadersFit(clientId: int, chunks: seq<Bytes>, seqNum: int)
  {
    forall j :: 0 <= j < |chunks| ==> |Encode(HeaderText(clientId, seqNum + j, |chunks[j]|))| <= RECV_SIZE
  }

  /**
   * The reassembly loop reads the server's header-and-payload frames back
   * into the concatenation of the payloads and goes on with what follows.
   */
  lemma {:induction false} ReassembleReplies(clientId: int, chunks: seq<Bytes>, seqNum: int,
                                             tail: seq<Bytes>, acc: Bytes)
    requires NonEmptyFrames(chunks) && HeadersFit(clientId, chunks, seqNum)
    requires forall j :: 0 <= j < |chunks| ==> |chunks[j]| <= SSIZE_MAX
    ensures Reassemble(ReplyFrames(clientId, chunks, seqNum) + tail, acc)
         == Reassemble(tail, acc + Flatten(chunks))
    decreases |chunks|
  {
    if chunks == [] {
      assert ReplyFrames(clientId, chunks, seqNum) + tail == tail;
      assert acc + Flatten(chunks) == acc;
    } else {
      var chunk := chunks[0];
      assert |Encode(HeaderText(clientId, seqNum + 0, |chunks[0]|))| <= RECV_SIZE;
      ReassembleOneReply(clientId, chunks, seqNum, tail, acc);
      assert HeadersFit(clientId, chunks[1..], seqNum + 1) by {
        forall j | 0 <= j < |chunks[1..]|
          ensures |Encode(HeaderText(clientId, seqNum + 1 + j, |chunks[1..][j]|))| <= RECV_SIZE
        {
          assert chunks[1..][j] == chunks[j + 1];
          assert seqNum + 1 + j == seqNum + (j + 1);
          assert |Encode(HeaderText(clientId, seqNum + (j + 1), |chunks[j + 1]|))| <= RECV_SIZE;
        }
      }
      assert NonEmptyFrames(chunks[1..]) by {
        forall j | 0 <= j < |chunks[1..]| ensures chunks[1..][j] != [] {
          assert chunks[1..][j] == chunks[j + 1];
        }
      }
      assert forall j :: 0 <= j < |chunks[1..]| ==> |chunks[1..][j]| <= SSIZE_MAX by {
        forall j | 0 <= j < |chunks[1..]| ensures |chunks[1..][j]| <= SSIZE_MAX {
          assert chunks[1..][j] == chunks[j + 1];
        }
      }
      ReassembleReplies(clientId, chunks[1..], seqNum + 1, tail, acc + chunk);
      SeqAssoc(acc, chunk, Flatten(chunks[1..]));
    }
  }

  /** One header frame and its payload frame add the payload. */
  lemma ReassembleOneReply(clientId: int, chunks: seq<Bytes>, seqNum: int, tail: seq<Bytes>, acc: Bytes)
    requires chunks != [] && chunks[0] != [] && |chunks[0]| <= SSIZE_MAX
    requires |Encode(HeaderText(clientId, seqNum, |chunks[0]|))| <= RECV_SIZE
    ensures Reassemble(ReplyFrames(clientId, chunks, seqNum) + tail, acc)
         == Reassemble(ReplyFrames(clientId, chunks[1..], seqNum + 1) + tail, acc + chunks[0])
  {
    var h := HeaderText(clientId, seqNum, |chunks[0]|);
    var later := ReplyFrames(clientId, chunks[1..], seqNum + 1) + tail;
    ReplyFramesCons(clientId, chunks, seqNum, tail);
    HeaderFields(clientId, seqNum, |chunks[0]|);
    ReassembleHeader(h, chunks[0], later, acc);
  }

  lemma ReplyFramesCons(clientId: int, chunks: seq<Bytes>, seqNum: int, tail: seq<Bytes>)
    requires chunks != []
    ensures ReplyFrames(clientId, chunks, seqNum) + tail
         == [Encode(HeaderText(clientId, seqNum, |chunks[0]|)), chunks[0]]
            + (ReplyFrames(clientId, chunks[1..], seqNum + 1) + tail)
  {
    ReplyFramesHead(clientId, chunks, seqNum);
    SeqAssoc([Encode(HeaderText(clientId, seqNum, |chunks[0]|)), chunks[0]],
             ReplyFrames(clientId, chunks[1..], seqNum + 1), tail);
  }

  /** The same for any header text the loop accepts. */
  lemma ReassembleHeader(h: string, chunk: Bytes, later: seq<Bytes>, acc: Bytes)
    requires |Encode(h)| <= RECV_SIZE && chunk != [] && |chunk| <= SSIZE_MAX
    requires Strip(h) == h && |Split(h, '|')| == 3 && ParseInt(Split(h, '|')[2]) == Some(|chunk|)
    ensures Reassemble([Encode(h), chunk] + later, acc) == Reassemble(later, acc + chunk)
  {
    var inbox := [Encode(h), chunk] + later;
    assert inbox[0] == Encode(h) && inbox[1..] == [chunk] + later;
    DecodeEncode(h);
    ReassembleAppends(inbox, acc);
    assert Receive(inbox[1..], |chunk|) == (chunk, later);
  }

  /**
   * Every header of a reply fits in one text receive when the client id and
   * twice the digits of the file length leave room for two separators.
   */
  lemma ChunkHeadersFit(clientId: int, data: Bytes)
    requires |FormatInt(clientId)| + 2 * |FormatNat(|data|)| + 2 <= RECV_SIZE
    ensures HeadersFit(clientId, Chunks(data, CHUNK_SIZE), 0)
  {
    var chunks := Chunks(data, CHUNK_SIZE);
    forall j | 0 <= j < |chunks|
      ensures |Encode(HeaderText(clientId, 0 + j, |chunks[j]|))| <= RECV_SIZE
    {
      ChunkAt(data, CHUNK_SIZE, j);
      var n := |chunks[j]|;
      assert j < |data| by {
        MulLe(1, CHUNK_SIZE, j);
      }
      assert n <= |data|;
      FormatNatMonotone(j, |data|);
      FormatNatMonotone(n, |data|);
      HeaderAscii(clientId, j, n);
      EncodeAscii(HeaderText(clientId, j, n));
    }
  }

  // ------------------------------------------------------------ a transfer

  /** A SHA-256 `hexdigest()`: 64 lower-case hexadecimal digits. */
  predicate IsHexDigest(s: string)
  {
    |s| == 64 && forall i :: 0 <= i < |s| ==> '0' <= s[i] <= '9' || 'a' <= s[i] <= 'f'
  }

  /** The client's frames after an ACK: the metadata, then the file's blocks. */
  function Upstream(fileName: string, contents: Bytes): (r: seq<Bytes>)
  {
    [Encode(MetadataText(fileName, |contents|))] + Chunks(contents, CHUNK_SIZE)
  }

  /** What the server holds once the file is in: corrupted when the fault fires. */
  function Delivered(contents: Bytes, faultInjected: bool, pick: nat): (r: Bytes)
  {
    if faultInjected then CorruptData(contents, pick) else contents
  }

  /** The requirements on a file name that the server reads back unchanged. */
  predicate PlainName(fileName: string, fileSize: nat)
  {
    '|' !in fileName && (fileName == [] || !IsSpace(fileName[0]))
    && |Encode(MetadataText(fileName, fileSize))| <= RECV_SIZE
  }

  /**
   * On the client's frames the server takes in the whole file, serves it,
   * and replies with ACK, the chunk frames of what it holds and its digest.
   */
  lemma ServerReceivesUpload(clientId: int, fileName: string, contents: Bytes, faultInjected: bool,
                             pick: nat, digest: Bytes -> string)
    requires PlainName(fileName, |contents|)
    ensures var data := Delivered(contents, faultInjected, pick);
      HandleSpec(clientId, Upstream(fileName, contents), faultInjected, pick, digest)
      == ServerRun(Served(fileName, |contents|, digest(data)), ReplyAll(clientId, data, digest), [])
  {
    var upstream := Upstream(fileName, contents);
    var chunks := Chunks(contents, CHUNK_SIZE);
    assert Receive(upstream, RECV_SIZE) == (upstream[0], chunks);
    MetadataRoundTrip(fileName, |contents|);
    ChunkBounds(contents, CHUNK_SIZE);
    FlattenChunks(contents, CHUNK_SIZE);
    ReceiveFileDataExact(chunks, []);
    assert ReceiveFileData(chunks, |contents|, []) == (contents, []);
  }

  /** A hex digest is its own single field and its frame fits one text receive. */
  lemma HexDigestFrame(g: string)
    requires IsHexDigest(g)
    ensures |Encode(g)| == 64 && Decode(Encode(g)) == Some(g)
    ensures Strip(g) == g && Split(g, '|') == [g] && g != []
  {
    assert IsAscii(g);
    EncodeAscii(g);
    DecodeEncode(g);
    StripNoop(g);
    SplitFree(g, '|');
  }

  /** After ACK, the client reads the chunk frames back into `data` and stops at the digest. */
  lemma ClientReassemblesReply(clientId: int, data: Bytes, digest: Bytes -> string)
    requires |FormatInt(clientId)| + 2 * |FormatNat(|data|)| + 2 <= RECV_SIZE
    requires IsHexDigest(digest(data))
    ensures var frames := ReplyAll(clientId, data, digest);
      Acknowledged(frames)
      && Reassemble(Receive(frames, RECV_SIZE).1, []) == Reassembly(data, [], None, digest(data))
  {
    var g := digest(data);
    var frames := ReplyAll(clientId, data, digest);
    var chunks := Chunks(data, CHUNK_SIZE);
    HexDigestFrame(g);
    assert Encode(g) != [];
    assert frames == [Encode(ACK)] + (ReplyFrames(clientId, chunks, 0) + [Encode(g)]);
    AckFrame();
    assert Receive(frames, RECV_SIZE) == (Encode(ACK), ReplyFrames(clientId, chunks, 0) + [Encode(g)]);
    ChunkBounds(data, CHUNK_SIZE);
    ChunkHeadersFit(clientId, data);
    ReassembleReplies(clientId, chunks, 0, [Encode(g)], []);
    FlattenChunks(data, CHUNK_SIZE);
    assert [] + data == data;
    ReassembleStops([Encode(g)], data);
  }

  /** The ACK frame is three bytes and reads back as ACK. */
  lemma AckFrame()
    ensures |Encode(ACK)| == 3 && Decode(Encode(ACK)) == Some(ACK) && Strip(ACK) == ACK
  {
    assert IsAscii(ACK);
    EncodeAscii(ACK);
    DecodeEncode(ACK);
    StripNoop(ACK);
  }

  /** What the client sends when the reply starts with ACK. */
  lemma ClientSendsUpload(fileName: string, contents: Bytes, inbox: seq<Bytes>, digest: Bytes -> string)
    requires Acknowledged(inbox)
    ensures UploadSpec(fileName, contents, inbox, digest).sent == Upstream(fileName, contents)
  {
    var text := MetadataText(fileName, |contents|);
    assert Encode(text) != [] by {
      EncodeEmpty(text);
      assert text[|fileName|] == '|';
    }
    UploadAcked(fileName, contents, inbox, digest);
    assert Transmit([], Encode(text)) == [Encode(text)];
  }

  /**
   * An upload as written: the server is sent exactly the client's frames
   * and serves the file, the client reassembles exactly what the server
   * holds, and then reports a mismatch against an empty checksum, because
   * the digest frame ended its loop and the socket is at its end.
   */
  lemma TransferAsWritten(clientId: int, fileName: string, contents: Bytes, faultInjected: bool,
                          pick: nat, digest: Bytes -> string)
    requires PlainName(fileName, |contents|)
    requires |FormatInt(clientId)| + 2 * |FormatNat(|contents|)| + 2 <= RECV_SIZE
    requires IsHexDigest(digest(Delivered(contents, faultInjected, pick)))
    ensures var data := Delivered(contents, faultInjected, pick);
      var server := HandleSpec(clientId, Upstream(fileName, contents), faultInjected, pick, digest);
      var client := UploadSpec(fileName, contents, server.sent, digest);
      server.outcome == Served(fileName, |contents|, digest(data))
      && client.sent == Upstream(fileName, contents)
      && client.received == data && client.rest == []
      && client.outcome == Mismatch([], digest(data))
  {
    var data := Delivered(contents, faultInjected, pick);
    ServerReceivesUpload(clientId, fileName, contents, faultInjected, pick, digest);
    ClientReassemblesReply(clientId, data, digest);
    var frames := ReplyAll(clientId, data, digest);
    ClientSendsUpload(fileName, contents, frames, digest);
    HexDigestFrame(digest(data));
    assert Verdict(data, [], digest) == (Mismatch([], digest(data)), []);
  }

  /**
   * The same upload with the corrected end verifies, and it verifies even
   * when the fault fired: the server digests what it holds, so the
   * whole-file check cannot see the corruption, although the data the
   * client got back differs from the file exactly when a non-empty file was
   * corrupted.
   */
  lemma TransferCorrected(clientId: int, fileName: string, contents: Bytes, faultInjected: bool,
                          pick: nat, digest: Bytes -> string)
    requires PlainName(fileName, |contents|)
    requires |FormatInt(clientId)| + 2 * |FormatNat(|contents|)| + 2 <= RECV_SIZE
    requires IsHexDigest(digest(Delivered(contents, faultInjected, pick)))
    ensures var data := Delivered(contents, faultInjected, pick);
      var server := HandleSpec(clientId, Upstream(fileName, contents), faultInjected, pick, digest);
      var client := UploadCorrected(fileName, contents, server.sent, digest);
      client.sent == Upstream(fileName, contents)
      && client.received == data && client.rest == []
      && client.outcome == Verified(digest(data))
      && (client.received == contents <==> !(faultInjected && contents != []))
  {
    var data := Delivered(contents, faultInjected, pick);
    ServerReceivesUpload(clientId, fileName, contents, faultInjected, pick, digest);
    ClientReassemblesReply(clientId, data, digest);
    var frames := ReplyAll(clientId, data, digest);
    ClientSendsUpload(fileName, contents, frames, digest);
  }
}
