/** Sending a file over a one-way stream, and receiving one. */
module Stream {
  import opened Wrappers
  import opened Bytes
  import opened Buffers
  import opened Frame
  import opened Postcard
  import opened Manifest
  import opened Chunker
  import opened Writer
  import opened Wire

  /** The sending end: writes succeed. */
  class SendStream {
    var written: bytes
    var finished: bool

    constructor ()
      ensures written == [] && !finished
    {
      written := [];
      finished := false;
    }

    method WriteAll(data: bytes)
      modifies this`written
      ensures written == old(written) + data
    {
      written := written + data;
    }

    method Finish()
      modifies this`finished
      ensures finished
    {
      finished := true;
    }
  }

  /** The receiving end of a stream whose bytes are `incoming`, up to its end. */
  class RecvStream {
    const incoming: bytes
    var pos: nat

    ghost predicate Valid()
      reads this
    {
      pos <= |incoming|
    }

    function Unread(): bytes
      reads this
      requires Valid()
    {
      incoming[pos..]
    }

    constructor (incoming: bytes)
      ensures this.incoming == incoming && pos == 0
    {
      this.incoming := incoming;
      pos := 0;
    }

    /** Fails at the end of the stream, having consumed what was left of it. */
    method ReadExact(n: nat) returns (r: Option<bytes>)
      requires Valid()
      modifies this
      ensures Valid()
      ensures n <= |old(Unread())| ==> r == Some(old(Unread())[..n]) && Unread() == old(Unread())[n..]
      ensures n > |old(Unread())| ==> r == None && Unread() == []
    {
      if pos + n > |incoming| {
        pos := |incoming|;
        return None;
      }
      ghost var before := incoming[pos..];
      r := Some(incoming[pos..pos + n]);
      pos := pos + n;
      assert before[..n] == r.value && before[n..] == incoming[pos..];
    }
  }

  // ----- Progress reports -----

  datatype Status = Streaming | Completed

  datatype TransferProgress =
    TransferProgress(transferId: Text, bytesTransferred: u64, totalBytes: u64, status: Status)

  /** The channel to the client that watches the transfer: it takes `capacity` updates and is
      then gone. */
  class ProgressSink {
    const capacity: nat
    var updates: seq<TransferProgress>

    constructor (capacity: nat)
      ensures this.capacity == capacity && updates == []
    {
      this.capacity := capacity;
      updates := [];
    }

    method Send(p: TransferProgress) returns (ok: bool)
      modifies this`updates
      ensures ok <==> |old(updates)| < capacity
      ensures updates == if ok then old(updates) + [p] else old(updates)
    {
      ok := |updates| < capacity;
      if ok {
        updates := updates + [p];
      }
    }
  }

  /** Updates go out with chunks 0, 50, 100, ... and with the last one. */
  function UpdateCount(total: u32): nat {
    if total == 0 then 0 else (total + 48) / 50 + 1
  }

  /** The chunk that the u-th update goes out with. */
  function UpdateChunk(total: u32, u: nat): (i: nat)
    requires u < UpdateCount(total)
    ensures i < total
  {
    Min(50 * u, total - 1)
  }

  function Update(m: FileManifest, u: nat): TransferProgress
    requires m.totalChunks == TotalChunks(m.fileSize) && u < UpdateCount(m.totalChunks)
  {
    var i := UpdateChunk(m.totalChunks, u);
    TransferProgress(m.transferId, Covered(m.fileSize, i + 1), m.fileSize,
                     if i == m.totalChunks - 1 then Completed else Streaming)
  }

  /** How many chunks go out when the client takes `capacity` updates: the first update it does
      not take ends the transfer, after the chunk it went out with. */
  function ChunksSent(total: u32, capacity: nat): (k: nat)
    ensures k <= total
  {
    Min(50 * capacity + 1, total)
  }

  // ----- The sender -----

  method WriteFrame(stream: SendStream, headerBuf: ByteBuffer, header: FrameHeader, payload: bytes)
    modifies stream`written, headerBuf
    ensures stream.written == old(stream.written) + Framed(header, payload)
  {
    headerBuf.Clear();
    EncodeHeader(header, headerBuf);
    assert headerBuf.data == Encode(header);
    stream.WriteAll(headerBuf.data);
    stream.WriteAll(U32ToBe(|payload| % U32_LIMIT));
    stream.WriteAll(payload);
    assert stream.written == old(stream.written) + Framed(header, payload);
  }

  /** After `start`, the stream holds the manifest and the first k chunks of an unchanged file. */
  ghost predicate HasSent(stream: SendStream, start: bytes, chunker: FileChunker, k: nat)
    requires chunker.Valid() && k <= chunker.manifest.totalChunks
    reads stream, chunker.file
  {
    chunker.Intact() ==> stream.written == start + Sent(chunker.manifest, chunker.file.contents, k)
  }

  method SendManifest(stream: SendStream, headerBuf: ByteBuffer, chunker: FileChunker)
    requires chunker.Valid()
    modifies stream`written, headerBuf
    ensures HasSent(stream, old(stream.written), chunker, 0)
  {
    WriteFrame(stream, headerBuf, MANIFEST_HEADER, ManifestToBytes(chunker.manifest));
    if chunker.Intact() {
      SentManifest(chunker.manifest, chunker.file.contents);
    }
  }

  method WriteChunkFrame(stream: SendStream, headerBuf: ByteBuffer, meta: ChunkPayload, data: bytes)
    requires meta.payloadLength == |data|
    modifies stream`written, headerBuf
    ensures stream.written == old(stream.written) + FrameBytes(Piece(Chunk(meta.chunkIndex, data)))
  {
    ghost var before := stream.written;
    var header := FrameHeader(TYPE_FILE_CHUNK_PAYLOAD, 0, 0, meta.chunkIndex);
    WriteFrame(stream, headerBuf, header, ChunkPayloadToBytes(meta));
    stream.WriteAll(data);
    ConcatAssociates(before, Framed(header, ChunkPayloadToBytes(meta)), data);
    assert PieceMeta(Chunk(meta.chunkIndex, data)) == meta;
  }

  /** One chunk: read it, write its frame and its data. Returns its size. */
  method SendChunk(stream: SendStream, headerBuf: ByteBuffer, chunker: FileChunker, i: u32, ghost start: bytes)
      returns (r: Result<nat, ReadError>)
    requires chunker.Valid() && i < chunker.manifest.totalChunks && HasSent(stream, start, chunker, i)
    modifies stream`written, headerBuf, chunker.file`pos
    ensures r.Success? ==>
      Covered(chunker.manifest.fileSize, i) + r.value == Covered(chunker.manifest.fileSize, i + 1)
      && HasSent(stream, start, chunker, i + 1)
    ensures chunker.Intact() ==> r.Success?
  {
    ghost var before := stream.written;
    var chunk :- chunker.ReadChunk(i);
    WriteChunkFrame(stream, headerBuf, chunk.0, chunk.1);
    if chunker.Intact() {
      NextSent(start, before, chunker.manifest, chunker.file.contents, i);
    }
    r := Success(|chunk.1|);
  }

  lemma NextSent(start: bytes, before: bytes, m: FileManifest, source: Source, i: nat)
    requires i < TotalChunks(|source|) && before == start + Sent(m, source, i)
    ensures before + FrameBytes(Piece(Chunk(i, SourceChunk(source, i)))) == start + Sent(m, source, i + 1)
  {
    SentChunk(m, source, i);
    ConcatAssociates(start, Sent(m, source, i), FrameBytes(Piece(Chunk(i, SourceChunk(source, i)))));
  }

  ghost predicate UpdatesFor(m: FileManifest, updates: seq<TransferProgress>)
    requires m.totalChunks == TotalChunks(m.fileSize)
  {
    |updates| <= UpdateCount(m.totalChunks)
    && forall u :: 0 <= u < |updates| ==> updates[u] == Update(m, u)
  }

  /** The updates that are due before chunk `i` have gone out, and the client took them. */
  ghost predicate OnSchedule(sink: ProgressSink, m: FileManifest, i: nat)
    requires m.totalChunks == TotalChunks(m.fileSize)
    reads sink
  {
    && |sink.updates| <= sink.capacity && UpdatesFor(m, sink.updates)
    && |sink.updates| == if i == m.totalChunks then UpdateCount(m.totalChunks) else (i + 49) / 50
  }

  /** The update that goes out with chunk `i`, if one does; false once the client is gone. */
  method Report(sink: ProgressSink, m: FileManifest, i: u32, bytesSent: u64) returns (ok: bool)
    requires m.totalChunks == TotalChunks(m.fileSize) && i < m.totalChunks
    requires bytesSent == Covered(m.fileSize, i + 1) && OnSchedule(sink, m, i)
    modifies sink`updates
    ensures ok ==> OnSchedule(sink, m, i + 1)
    ensures !ok ==> UpdatesFor(m, sink.updates) && |sink.updates| == sink.capacity
                    && sink.capacity < UpdateCount(m.totalChunks) && i + 1 == ChunksSent(m.totalChunks, sink.capacity)
  {
    ok := true;
    if i % 50 == 0 || i == m.totalChunks - 1 {
      var progress := TransferProgress(m.transferId, bytesSent, m.fileSize,
                                       if i == m.totalChunks - 1 then Completed else Streaming);
      assert UpdateChunk(m.totalChunks, (i + 49) / 50) == i;
      assert progress == Update(m, (i + 49) / 50);
      ok := sink.Send(progress);
    }
  }

  /** What the client has been told by the end. */
  ghost predicate Reported(sink: ProgressSink, m: FileManifest)
    requires m.totalChunks == TotalChunks(m.fileSize)
    reads sink
  {
    UpdatesFor(m, sink.updates) && |sink.updates| == Min(sink.capacity, UpdateCount(m.totalChunks))
  }

  /** The loop over the chunks. */
  method SendChunks(stream: SendStream, headerBuf: ByteBuffer, chunker: FileChunker, sink: ProgressSink,
                    ghost start: bytes)
      returns (r: Result<(), ReadError>)
    requires chunker.Valid() && HasSent(stream, start, chunker, 0) && sink.updates == []
    modifies stream`written, headerBuf, chunker.file`pos, sink`updates
    ensures chunker.Intact() ==> r.Success?
    ensures r.Success? ==> HasSent(stream, start, chunker, ChunksSent(chunker.manifest.totalChunks, sink.capacity))
    ensures r.Success? ==> Reported(sink, chunker.manifest)
  {
    var m := chunker.manifest;
    var bytesSent := 0;
    var i := 0;
    while i < m.totalChunks
      invariant 0 <= i <= m.totalChunks
      invariant HasSent(stream, start, chunker, i)
      invariant bytesSent == Covered(m.fileSize, i)
      invariant OnSchedule(sink, m, i)
    {
      var length :- SendChunk(stream, headerBuf, chunker, i, start);
      bytesSent := bytesSent + length;
      var ok := Report(sink, m, i, bytesSent);
      if !ok {
        return Success(());
      }
      i := i + 1;
    }
    r := Success(());
  }

  /** Writes the manifest and then as many chunks, in order, as the client keeps listening for;
      on a file that has not changed it never fails. */
  method SendFile(stream: SendStream, chunker: FileChunker, sink: ProgressSink)
      returns (r: Result<(), ReadError>)
    requires chunker.Valid() && sink.updates == []
    modifies stream, chunker.file`pos, sink`updates
    ensures chunker.Intact() ==> r == Success(())
    ensures r.Success? ==>
      && stream.finished && Reported(sink, chunker.manifest)
      && HasSent(stream, old(stream.written), chunker, ChunksSent(chunker.manifest.totalChunks, sink.capacity))
  {
    var headerBuf := new ByteBuffer();
    SendManifest(stream, headerBuf, chunker);
    var _ :- SendChunks(stream, headerBuf, chunker, sink, old(stream.written));
    stream.Finish();
    r := Success(());
  }

  // ----- The receiver -----

  /** The receiver's variables as a value. */
  ghost function ViewOf(writer: DiskWriter?, written: seq<Chunk>, reports: nat): Receiver
    reads writer, if writer == null then {} else {writer.file}
  {
    Receiver(if writer == null then None else Some(writer.View()), written, reports)
  }

  /** Step 3 of the loop: act on a frame whose payload has been read. */
  method ProcessFrame(stream: RecvStream, frameType: byte, payload: bytes,
                      writer: DiskWriter?, reports: nat, ghost written: seq<Chunk>)
      returns (writer': DiskWriter?, reports': nat, ghost written': seq<Chunk>)
    requires stream.Valid() && (writer != null ==> WellFormed(writer.View()))
    modifies stream, writer, if writer == null then {} else {writer.file}
    ensures stream.Valid() && (writer' != null ==> WellFormed(writer'.View()))
    ensures writer' == writer || (writer' != null && fresh(writer') && fresh(writer'.file))
    ensures Deliver(frameType, payload, old(stream.Unread()), old(ViewOf(writer, written, reports)))
         == Continue(ViewOf(writer', written', reports'), stream.Unread())
  {
    writer', reports', written' := writer, reports, written;
    if frameType == TYPE_FILE_MANIFEST {
      var manifest := ManifestFromBytes(payload);
      if manifest.Some? {
        writer' := new DiskWriter(manifest.value);
        written' := [];
      }
    } else if frameType == TYPE_FILE_CHUNK_PAYLOAD {
      if writer != null {
        var meta := ChunkPayloadFromBytes(payload);
        if meta.Some? {
          var rawChunk := stream.ReadExact(meta.value.payloadLength);
          if rawChunk.Some? {
            var _ := writer.WriteChunk(meta.value.chunkIndex, rawChunk.value);
            written' := written + [Chunk(meta.value.chunkIndex, rawChunk.value)];
            var complete := writer.IsComplete();
            if complete {
              reports' := reports + 1;
            }
          }
        }
      }
    }
  }

  lemma Slices(b: bytes, i: nat, j: nat)
    requires i <= j <= |b|
    ensures b[i..][..j - i] == b[i..j] && b[i..][j - i..] == b[j..]
  {
  }

  /** Steps 1 and 2 of the loop: the header, the payload's size and the payload; None where the
      loop breaks. */
  method ReadFrame(stream: RecvStream, ghost r: Receiver) returns (frame: Option<(byte, bytes)>)
    requires stream.Valid()
    modifies stream
    ensures stream.Valid()
    ensures Iterate(old(stream.Unread()), r)
         == if frame.None? then Exit else Deliver(frame.value.0, frame.value.1, stream.Unread(), r)
    ensures frame.Some? ==> |stream.Unread()| + PREAMBLE_SIZE <= |old(stream.Unread())|
  {
    ghost var input := stream.Unread();
    var headerBuf := stream.ReadExact(HEADER_SIZE);
    if headerBuf.None? {
      return None;
    }
    var cursor := new Cursor(headerBuf.value);
    var decoded := DecodeHeader(cursor);
    if decoded.Failure? {
      return None;
    }
    var sizeBuf := stream.ReadExact(4);
    if sizeBuf.None? {
      return None;
    }
    Slices(input, HEADER_SIZE, PREAMBLE_SIZE);
    var payloadSize := U32FromBe(sizeBuf.value);
    var payloadBuf := stream.ReadExact(payloadSize);
    if payloadBuf.None? {
      return None;
    }
    Slices(input, PREAMBLE_SIZE, PREAMBLE_SIZE + payloadSize);
    frame := Some((decoded.value.frameType, payloadBuf.value));
  }

  /** Reads the stream to its end, or to a header that does not decode. */
  method ReceiveFile(stream: RecvStream)
      returns (writer: DiskWriter?, reports: nat, ghost written: seq<Chunk>)
    requires stream.Valid()
    modifies stream
    ensures stream.Valid()
    ensures writer != null ==> fresh(writer) && fresh(writer.file)
    ensures ViewOf(writer, written, reports) == Run(old(stream.Unread()), IDLE).receiver
  {
    writer, reports, written := null, 0, [];
    while true
      invariant stream.Valid()
      invariant writer != null ==> fresh(writer) && fresh(writer.file) && WellFormed(writer.View())
      invariant Run(stream.Unread(), ViewOf(writer, written, reports)).receiver
             == Run(old(stream.Unread()), IDLE).receiver
      decreases |stream.Unread()|
    {
      var frame := ReadFrame(stream, ViewOf(writer, written, reports));
      if frame.None? {
        break;
      }
      writer, reports, written := ProcessFrame(stream, frame.value.0, frame.value.1, writer, reports, written);
    }
  }
}
