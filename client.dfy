/**
 * The uploader: `Client.upload_file` of client.py.
 *
 * It sends the `"name|size"` metadata frame, insists on the reply `"ACK"`,
 * streams the file in blocks of CHUNK_SIZE bytes, reassembles what the
 * server sends back from `"client_id|seq|len"` headers and their payloads,
 * and compares the digest of what it reassembled with a checksum frame. The
 * file's name and contents are inputs (the source takes them from the file
 * system) and SHA-256 is the parameter `digest`.
 */
module Client {
  import opened Wrappers
  import opened Seqs
  import opened Wire
  import opened Utf8
  import opened Text
  import opened Chunking

  /** The exceptions `upload_file` catches and reports. */
  datatype ClientError =
    | AckNotText              // UnicodeDecodeError decoding the reply to the metadata
    | NoAck(reply: string)    // "Did not receive proper ACK from server"
    | HeaderNotText           // UnicodeDecodeError decoding a header
    | SizeNotInteger          // ValueError from int(chunk_size)
    | SizeOverflow            // OverflowError from recv() with a size outside Py_ssize_t
    | NegativeSize            // ValueError from recv() with a negative size
    | ChecksumNotText         // UnicodeDecodeError decoding the checksum

  /** What `upload_file` reports. */
  datatype Outcome =
    | Verified(checksum: string)
    | Mismatch(expected: string, computed: string)
    | Failed(error: ClientError)

  /** `f"{file_name}|{file_size}"`. */
  function MetadataText(fileName: string, fileSize: int): (r: string)
  {
    fileName + "|" + FormatInt(fileSize)
  }

  // ------------------------------------------------------------ reassembly

  /**
   * The state the reassembly loop leaves: the data appended so far, the
   * frames still pending, the exception that ended it (if any), and the
   * stripped text of the frame that ended it normally.
   */
  datatype Reassembly = Reassembly(received: Bytes, rest: seq<Bytes>, failure: Option<ClientError>,
                                   terminator: string)

  /**
   * The reassembly loop from data `acc` on: read a header; stop on an empty
   * one or on one that does not split into three fields; otherwise receive
   * as many bytes as its third field says and append them.
   */
  function Reassemble(inbox: seq<Bytes>, acc: Bytes): (r: Reassembly)
    ensures |acc| <= |r.received| && r.received[..|acc|] == acc
    ensures r.failure in {None, Some(HeaderNotText), Some(SizeNotInteger), Some(SizeOverflow), Some(NegativeSize)}
    ensures r.failure.None? ==> r.terminator == [] || |Split(r.terminator, '|')| != 3
    decreases Measure(inbox)
  {
    var (raw, afterHeader) := Receive(inbox, RECV_SIZE);
    var text := Decode(raw);
    if text.None? then Reassembly(acc, afterHeader, Some(HeaderNotText), [])
    else
      var header := Strip(text.value);
      if header == [] then Reassembly(acc, afterHeader, None, header)
      else
        var parts := Split(header, '|');
        if |parts| != 3 then Reassembly(acc, afterHeader, None, header)
        else
          var size := ParseInt(parts[2]);
          if size.None? then Reassembly(acc, afterHeader, Some(SizeNotInteger), [])
          else if !(SSIZE_MIN <= size.value <= SSIZE_MAX) then Reassembly(acc, afterHeader, Some(SizeOverflow), [])
          else if size.value < 0 then Reassembly(acc, afterHeader, Some(NegativeSize), [])
          else
            var (chunk, afterChunk) := Receive(afterHeader, size.value);
            var r := Reassemble(afterChunk, acc + chunk);
            assert (acc + chunk)[..|acc|] == acc;
            r
  }

  /**
   * A frame that reads as an empty header, or as one without exactly three
   * fields, ends the loop; it is consumed and contributes no data.
   */
  lemma ReassembleStops(inbox: seq<Bytes>, acc: Bytes)
    requires inbox != [] && |inbox[0]| <= RECV_SIZE
    requires Decode(inbox[0]).Some?
    requires var header := Strip(Decode(inbox[0]).value);
      header == [] || |Split(header, '|')| != 3
    ensures Reassemble(inbox, acc)
         == Reassembly(acc, inbox[1..], None, Strip(Decode(inbox[0]).value))
  {
  }

  /**
   * A three-field header whose third field is a count `n` that `recv()`
   * takes (no more than SSIZE_MAX) makes the loop
   * append exactly the next received payload of up to `n` bytes and go on.
   */
  lemma ReassembleAppends(inbox: seq<Bytes>, acc: Bytes)
    requires inbox != [] && |inbox[0]| <= RECV_SIZE
    requires Decode(inbox[0]).Some?
    requires var parts := Split(Strip(Decode(inbox[0]).value), '|');
      |parts| == 3 && ParseInt(parts[2]).Some? && 0 <= ParseInt(parts[2]).value <= SSIZE_MAX
    ensures var n := ParseInt(Split(Strip(Decode(inbox[0]).value), '|')[2]).value;
      var (chunk, afterChunk) := Receive(inbox[1..], n);
      |chunk| <= n && Reassemble(inbox, acc) == Reassemble(afterChunk, acc + chunk)
  {
    var header := Strip(Decode(inbox[0]).value);
    assert header != [];
  }

  /**
   * A three-field header whose count `recv()` cannot take ends the loop with
   * the matching exception: not an integer, outside `Py_ssize_t`, or
   * negative. The header is consumed and no data is added.
   */
  lemma ReassembleRefusesSize(inbox: seq<Bytes>, acc: Bytes)
    requires inbox != [] && |inbox[0]| <= RECV_SIZE
    requires Decode(inbox[0]).Some?
    requires |Split(Strip(Decode(inbox[0]).value), '|')| == 3
    ensures var size := ParseInt(Split(Strip(Decode(inbox[0]).value), '|')[2]);
      var r := Reassemble(inbox, acc);
      && (size.None? ==> r == Reassembly(acc, inbox[1..], Some(SizeNotInteger), []))
      && (size.Some? && !(SSIZE_MIN <= size.value <= SSIZE_MAX)
          ==> r == Reassembly(acc, inbox[1..], Some(SizeOverflow), []))
      && (size.Some? && SSIZE_MIN <= size.value < 0
          ==> r == Reassembly(acc, inbox[1..], Some(NegativeSize), []))
  {
    var header := Strip(Decode(inbox[0]).value);
    assert header != [];
    assert Receive(inbox, RECV_SIZE) == (inbox[0], inbox[1..]);
  }

  /**
   * On a closed connection `recv()` gives `b""`, which strips to an empty
   * header: the loop ends ("No more data") without adding data.
   */
  lemma ReassembleClosed(acc: Bytes)
    ensures Reassemble([], acc) == Reassembly(acc, [], None, [])
  {
  }

  /**
   * A header read that is not the UTF-8 encoding of any text ends the loop
   * with the decoding error; the read is consumed and no data is added.
   */
  lemma ReassembleNotText(inbox: seq<Bytes>, acc: Bytes)
    requires forall s :: Encode(s) != Receive(inbox, RECV_SIZE).0
    ensures Reassemble(inbox, acc)
         == Reassembly(acc, Receive(inbox, RECV_SIZE).1, Some(HeaderNotText), [])
  {
    var raw := Receive(inbox, RECV_SIZE).0;
    if Decode(raw).Some? {
      EncodeDecode(raw);
      assert Encode(Decode(raw).value) == raw;
    }
  }

  // ------------------------------------------------------------ the upload

  /** What one run of `upload_file` does. */
  datatype ClientRun = ClientRun(outcome: Outcome, received: Bytes, sent: seq<Bytes>, rest: seq<Bytes>)

  /** `upload_file`, as a function of the server's frames. */
  function UploadSpec(fileName: string, contents: Bytes, inbox: seq<Bytes>,
                      digest: Bytes -> string): (run: ClientRun)
  {
    var sent := Transmit([], Encode(MetadataText(fileName, |contents|)));
    var reply := Receive(inbox, RECV_SIZE);
    var text := Decode(reply.0);
    if text.None? then ClientRun(Failed(AckNotText), [], sent, reply.1)
    else if Strip(text.value) != ACK then ClientRun(Failed(NoAck(Strip(text.value))), [], sent, reply.1)
    else Finish(Reassemble(reply.1, []), sent + Chunks(contents, CHUNK_SIZE), digest)
  }

  /** After the loop: stop on its exception, or go on to the checksum frame. */
  function Finish(re: Reassembly, sent: seq<Bytes>, digest: Bytes -> string): (run: ClientRun)
    ensures run.sent == sent && run.received == re.received
    ensures run.outcome.Failed? ==> Some(run.outcome.error) == re.failure || run.outcome.error == ChecksumNotText
    ensures run.outcome.Verified? ==> re.failure.None? && run.outcome.checksum == digest(re.received)
    ensures run.outcome.Mismatch? ==> re.failure.None? && run.outcome.computed == digest(re.received)
                                      && run.outcome.expected != run.outcome.computed
    ensures re.failure.Some? ==> run.outcome == Failed(re.failure.value) && run.rest == re.rest
    ensures re.failure.None? ==> (run.outcome, run.rest) == Verdict(re.received, re.rest, digest)
  {
    if re.failure.Some? then ClientRun(Failed(re.failure.value), re.received, sent, re.rest)
    else
      var (outcome, rest) := Verdict(re.received, re.rest, digest);
      ClientRun(outcome, re.received, sent, rest)
  }

  /**
   * Read the checksum frame and compare it with the digest of `received`:
   * a frame that is not text fails; otherwise the checksum is its stripped
   * text, and the verdict is `Verified` exactly when the digest equals it.
   */
  function Verdict(received: Bytes, inbox: seq<Bytes>, digest: Bytes -> string): (r: (Outcome, seq<Bytes>))
    ensures r.1 == Receive(inbox, RECV_SIZE).1
    ensures Decode(Receive(inbox, RECV_SIZE).0).None? <==> r.0 == Failed(ChecksumNotText)
    ensures Decode(Receive(inbox, RECV_SIZE).0).Some? ==>
      var checksum := Strip(Decode(Receive(inbox, RECV_SIZE).0).value);
      && (r.0.Verified? || r.0.Mismatch?)
      && (r.0.Verified? <==> digest(received) == checksum)
      && (r.0.Verified? ==> r.0.checksum == checksum)
      && (r.0.Mismatch? ==> r.0.expected == checksum && r.0.computed == digest(received))
  {
    var frame := Receive(inbox, RECV_SIZE);
    var text := Decode(frame.0);
    if text.None? then (Failed(ChecksumNotText), frame.1)
    else
      var checksum := Strip(text.value);
      var computed := digest(received);
      (if computed == checksum then Verified(checksum) else Mismatch(checksum, computed), frame.1)
  }

  /** The block-send loop: `file.read(CHUNK_SIZE)` and send until an empty read. */
  method SendFile(sock: Socket, contents: Bytes)
    modifies sock
    ensures sock.outbox == old(sock.outbox) + Chunks(contents, CHUNK_SIZE)
    ensures sock.inbox == old(sock.inbox)
  {
    var pos := 0;
    while true
      invariant 0 <= pos <= |contents|
      invariant sock.outbox + Chunks(contents[pos..], CHUNK_SIZE)
             == old(sock.outbox) + Chunks(contents, CHUNK_SIZE)
      invariant sock.inbox == old(sock.inbox)
      decreases |contents| - pos
    {
      var block := contents[pos..Min(pos + CHUNK_SIZE, |contents|)];
      if block == [] {
        break;
      }
      ghost var before := sock.outbox;
      ReadStep(contents, pos);
      sock.Send(block);
      SeqAssoc(before, [block], Chunks(contents[pos + |block|..], CHUNK_SIZE));
      pos := pos + |block|;
    }
    assert contents[pos..] == [];
  }

  /** A non-empty `file.read(CHUNK_SIZE)` at `pos` is the first chunk of what is left. */
  lemma ReadStep(contents: Bytes, pos: nat)
    requires pos < |contents|
    ensures var block := contents[pos..Min(pos + CHUNK_SIZE, |contents|)];
      block != [] && Chunks(contents[pos..], CHUNK_SIZE) == [block] + Chunks(contents[pos + |block|..], CHUNK_SIZE)
  {
    var block := contents[pos..Min(pos + CHUNK_SIZE, |contents|)];
    var rest := contents[pos..];
    assert rest[|block|..] == contents[pos + |block|..];
    if |rest| <= CHUNK_SIZE {
      assert block == rest && rest[|block|..] == [];
    } else {
      assert block == rest[..CHUNK_SIZE];
    }
  }

  /** The reassembly loop on the socket. */
  method ReceiveChunks(sock: Socket) returns (received: Bytes, failure: Option<ClientError>, terminator: string)
    modifies sock
    ensures Reassemble(old(sock.inbox), []) == Reassembly(received, sock.inbox, failure, terminator)
    ensures sock.outbox == old(sock.outbox)
  {
    received := [];
    while true
      invariant Reassemble(sock.inbox, received) == Reassemble(old(sock.inbox), [])
      invariant sock.outbox == old(sock.outbox)
      decreases Measure(sock.inbox)
    {
      var raw := sock.Recv(RECV_SIZE);
      var text := Decode(raw);
      if text.None? {
        failure, terminator := Some(HeaderNotText), [];
        return;
      }
      var header := Strip(text.value);
      if header == [] {
        failure, terminator := None, header;
        return;
      }
      var parts := Split(header, '|');
      if |parts| != 3 {
        failure, terminator := None, header;
        return;
      }
      var size := ParseInt(parts[2]);
      if size.None? {
        failure, terminator := Some(SizeNotInteger), [];
        return;
      }
      if !(SSIZE_MIN <= size.value <= SSIZE_MAX) {
        failure, terminator := Some(SizeOverflow), [];
        return;
      }
      if size.value < 0 {
        failure, terminator := Some(NegativeSize), [];
        return;
      }
      var chunk := sock.Recv(size.value);
      received := received + chunk;
    }
  }

  /** `Client.upload_file` on a connected socket. */
  method UploadFile(sock: Socket, fileName: string, contents: Bytes, digest: Bytes -> string)
    returns (outcome: Outcome, received: Bytes)
    modifies sock
    ensures var run := UploadSpec(fileName, contents, old(sock.inbox), digest);
      outcome == run.outcome && received == run.received
      && sock.outbox == old(sock.outbox) + run.sent && sock.inbox == run.rest
  {
    var meta := Encode(MetadataText(fileName, |contents|));
    ghost var out0 := sock.outbox;
    ghost var sent := Transmit([], meta);
    sock.Send(meta);
    TransmitAppend(out0, [], meta);
    assert sock.outbox == out0 + sent;
    var reply := sock.Recv(RECV_SIZE);
    ghost var in1 := sock.inbox;
    var text := Decode(reply);
    received := [];
    if text.None? {
      outcome := Failed(AckNotText);
      return;
    }
    var ack := Strip(text.value);
    if ack != ACK {
      outcome := Failed(NoAck(ack));
      return;
    }
    ghost var sentAll := sent + Chunks(contents, CHUNK_SIZE);
    assert UploadSpec(fileName, contents, old(sock.inbox), digest) == Finish(Reassemble(in1, []), sentAll, digest);
    SendFile(sock, contents);
    SeqAssoc(out0, sent, Chunks(contents, CHUNK_SIZE));
    assert sock.outbox == out0 + sentAll;
    var failure, terminator;
    received, failure, terminator := ReceiveChunks(sock);
    ghost var re := Reassembly(received, sock.inbox, failure, terminator);
    assert re == Reassemble(in1, []);
    if failure.Some? {
      outcome := Failed(failure.value);
      return;
    }
    outcome := VerifyChecksum(sock, received, digest);
  }

  /** Read the checksum frame and compare it with the digest of `received`. */
  method VerifyChecksum(sock: Socket, received: Bytes, digest: Bytes -> string) returns (outcome: Outcome)
    modifies sock
    ensures (outcome, sock.inbox) == Verdict(received, old(sock.inbox), digest)
    ensures sock.outbox == old(sock.outbox)
  {
    var frame := sock.Recv(RECV_SIZE);
    var checksumText := Decode(frame);
    if checksumText.None? {
      outcome := Failed(ChecksumNotText);
      return;
    }
    var checksum := Strip(checksumText.value);
    var computed := digest(received);
    if computed == checksum {
      outcome := Verified(checksum);
    } else {
      outcome := Mismatch(checksum, computed);
    }
  }

  // ------------------------------------------------------------ properties

  /** The reply to the metadata frame reads, once stripped, as `"ACK"`. */
  predicate Acknowledged(inbox: seq<Bytes>)
  {
    var text := Decode(Receive(inbox, RECV_SIZE).0);
    text.Some? && Strip(text.value) == ACK
  }

  /** After an `"ACK"` the upload goes on to send the file and reassemble the reply. */
  lemma UploadAcked(fileName: string, contents: Bytes, inbox: seq<Bytes>, digest: Bytes -> string)
    requires Acknowledged(inbox)
    ensures UploadSpec(fileName, contents, inbox, digest)
         == Finish(Reassemble(Receive(inbox, RECV_SIZE).1, []),
                   Transmit([], Encode(MetadataText(fileName, |contents|))) + Chunks(contents, CHUNK_SIZE),
                   digest)
  {
  }

  /**
   * The metadata frame always goes first; the file's blocks follow it
   * exactly when the reply was `"ACK"`, and they carry the whole file. The
   * run fails with an ACK error exactly when the reply was not `"ACK"`.
   */
  lemma UploadSends(fileName: string, contents: Bytes, inbox: seq<Bytes>, digest: Bytes -> string)
    ensures var run := UploadSpec(fileName, contents, inbox, digest);
      |run.sent| >= 1 && run.sent[0] == Encode(MetadataText(fileName, |contents|))
      && (Acknowledged(inbox) ==>
            run.sent[1..] == Chunks(contents, CHUNK_SIZE) && Flatten(run.sent[1..]) == contents)
      && (!Acknowledged(inbox) ==> run.sent == [run.sent[0]] && run.received == [])
      && (Acknowledged(inbox)
          <==> !(run.outcome == Failed(AckNotText) || (run.outcome.Failed? && run.outcome.error.NoAck?)))
  {
    var meta := Encode(MetadataText(fileName, |contents|));
    EncodeEmpty(MetadataText(fileName, |contents|));
    assert Transmit([], meta) == [meta];
    var run := UploadSpec(fileName, contents, inbox, digest);
    if Acknowledged(inbox) {
      var re := Reassemble(Receive(inbox, RECV_SIZE).1, []);
      var sent := [meta] + Chunks(contents, CHUNK_SIZE);
      assert run == Finish(re, sent, digest);
      FlattenChunks(contents, CHUNK_SIZE);
      assert sent[1..] == Chunks(contents, CHUNK_SIZE);
    }
  }

  /**
   * After an `"ACK"` and a reassembly loop that ended without an exception,
   * the checksum is the stripped text of the frame received after the one
   * that ended the loop: the upload reports `Verified` exactly when the
   * digest of the reassembled data equals it, and `Mismatch` carries it.
   */
  lemma UploadChecksum(fileName: string, contents: Bytes, inbox: seq<Bytes>, digest: Bytes -> string)
    requires Acknowledged(inbox)
    requires Reassemble(Receive(inbox, RECV_SIZE).1, []).failure.None?
    ensures var re := Reassemble(Receive(inbox, RECV_SIZE).1, []);
      var frame := Receive(re.rest, RECV_SIZE);
      var run := UploadSpec(fileName, contents, inbox, digest);
      && run.received == re.received && run.rest == frame.1
      && (Decode(frame.0).None? <==> run.outcome == Failed(ChecksumNotText))
      && (Decode(frame.0).Some? ==>
            && (run.outcome.Verified? <==> digest(re.received) == Strip(Decode(frame.0).value))
            && (run.outcome.Verified? || run.outcome.Mismatch?)
            && (run.outcome.Mismatch? ==> run.outcome.expected == Strip(Decode(frame.0).value)))
  {
    UploadAcked(fileName, contents, inbox, digest);
  }

  /**
   * A reported verdict is about the data reassembled: `Verified` carries its
   * digest, and `Mismatch` a computed digest that differs from the expected
   * one. Either is reached only after an ACK.
   */
  lemma VerdictMeansDigest(fileName: string, contents: Bytes, inbox: seq<Bytes>, digest: Bytes -> string)
    ensures var run := UploadSpec(fileName, contents, inbox, digest);
      (run.outcome.Verified? ==> run.outcome.checksum == digest(run.received))
      && (run.outcome.Mismatch? ==> run.outcome.computed == digest(run.received)
                                    && run.outcome.expected != run.outcome.computed)
      && (run.outcome.Verified? || run.outcome.Mismatch? ==> Acknowledged(inbox))
  {
    if Acknowledged(inbox) {
      var meta := Encode(MetadataText(fileName, |contents|));
      var re := Reassemble(Receive(inbox, RECV_SIZE).1, []);
      assert UploadSpec(fileName, contents, inbox, digest)
          == Finish(re, Transmit([], meta) + Chunks(contents, CHUNK_SIZE), digest);
    }
  }

  /**
   * The intended end of the upload: the frame that ends the reassembly loop
   * is the checksum, so nothing more is received.
   */
  function FinishCorrected(re: Reassembly, sent: seq<Bytes>, digest: Bytes -> string): (run: ClientRun)
    ensures run.received == re.received && run.sent == sent && run.rest == re.rest
    ensures run.outcome.Verified? <==> re.failure.None? && digest(re.received) == re.terminator
    ensures run.outcome.Verified? ==> run.outcome.checksum == re.terminator
    ensures run.outcome.Mismatch? ==> run.outcome == Mismatch(re.terminator, digest(re.received))
  {
    if re.failure.Some? then ClientRun(Failed(re.failure.value), re.received, sent, re.rest)
    else
      var checksum := re.terminator;
      var computed := digest(re.received);
      ClientRun(if computed == checksum then Verified(checksum) else Mismatch(checksum, computed),
                re.received, sent, re.rest)
  }

  /** `upload_file` with the corrected end. */
  function UploadCorrected(fileName: string, contents: Bytes, inbox: seq<Bytes>,
                           digest: Bytes -> string): (run: ClientRun)
  {
    var run := UploadSpec(fileName, contents, inbox, digest);
    if Acknowledged(inbox) then FinishCorrected(Reassemble(Receive(inbox, RECV_SIZE).1, []), run.sent, digest)
    else run
  }
}
