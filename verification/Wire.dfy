/** The file stream on the wire: which frames a sender writes, and what a receiver that reads
    the bytes one iteration at a time makes of them. */
module Wire {
  import opened Wrappers
  import opened Bytes
  import opened Frame
  import opened Manifest
  import opened Writer

  const PREAMBLE_SIZE := HEADER_SIZE + 4

  // ----- Frames -----

  /** Announce opens a transfer, Piece carries one chunk, Foreign is a frame of any other type. */
  datatype WireFrame =
    | Announce(manifest: FileManifest)
    | Piece(chunk: Chunk)
    | Foreign(header: FrameHeader, payload: bytes)

  /** A header, the payload's length and the payload. The length is cast to 32 bits. */
  function Framed(h: FrameHeader, payload: bytes): bytes {
    Encode(h) + U32ToBe(|payload| % U32_LIMIT) + payload
  }

  function PieceMeta(c: Chunk): ChunkPayload {
    ChunkPayload(c.index, |c.data| % U32_LIMIT)
  }

  function PieceHeader(c: Chunk): FrameHeader {
    FrameHeader(TYPE_FILE_CHUNK_PAYLOAD, 0, 0, c.index)
  }

  const MANIFEST_HEADER := FrameHeader(TYPE_FILE_MANIFEST, 0, 0, 0)

  function FrameBytes(f: WireFrame): bytes {
    match f
    case Announce(m) => Framed(MANIFEST_HEADER, ManifestToBytes(m))
    case Piece(c) => Framed(PieceHeader(c), ChunkPayloadToBytes(PieceMeta(c))) + c.data
    case Foreign(h, payload) => Framed(h, payload)
  }

  /** The frame's lengths fit their 32-bit fields, and Foreign is what it says. */
  predicate WellFramed(f: WireFrame) {
    match f
    case Announce(m) => |ManifestToBytes(m)| < U32_LIMIT
    case Piece(c) => |c.data| < U32_LIMIT
    case Foreign(h, payload) =>
      h.frameType != TYPE_FILE_MANIFEST && h.frameType != TYPE_FILE_CHUNK_PAYLOAD && |payload| < U32_LIMIT
  }

  function StreamBytes(fs: seq<WireFrame>): bytes {
    if fs == [] then [] else FrameBytes(fs[0]) + StreamBytes(fs[1..])
  }

  /** What a sender writes for a whole file. */
  function SenderFrames(m: FileManifest, source: Source): (fs: seq<WireFrame>)
    ensures |fs| == TotalChunks(|source|) + 1
  {
    [Announce(m)] + SenderPieces(source)
  }

  function SenderPieces(source: Source): (fs: seq<WireFrame>)
    ensures |fs| == TotalChunks(|source|)
    ensures forall i :: 0 <= i < |fs| ==> fs[i] == Piece(Chunk(i, SourceChunk(source, i)))
  {
    seq(TotalChunks(|source|), i requires 0 <= i < TotalChunks(|source|) => Piece(Chunk(i, SourceChunk(source, i))))
  }

  /** The manifest and the first k chunks. */
  function Sent(m: FileManifest, source: Source, k: nat): bytes
    requires k <= TotalChunks(|source|)
  {
    StreamBytes(SenderFrames(m, source)[..k + 1])
  }

  lemma SentManifest(m: FileManifest, source: Source)
    ensures Sent(m, source, 0) == FrameBytes(Announce(m))
  {
    assert SenderFrames(m, source)[..1] == [Announce(m)];
    StreamBytesSingle(Announce(m));
  }

  lemma SentChunk(m: FileManifest, source: Source, k: nat)
    requires k < TotalChunks(|source|)
    ensures Sent(m, source, k + 1)
         == Sent(m, source, k) + FrameBytes(Piece(Chunk(k, SourceChunk(source, k))))
  {
    var fs, last := SenderFrames(m, source), Piece(Chunk(k, SourceChunk(source, k)));
    assert fs[..k + 2] == fs[..k + 1] + [last];
    StreamBytesAppend(fs[..k + 1], [last]);
    StreamBytesSingle(last);
  }

  lemma {:induction false} StreamBytesAppend(fs: seq<WireFrame>, gs: seq<WireFrame>)
    ensures StreamBytes(fs + gs) == StreamBytes(fs) + StreamBytes(gs)
  {
    if fs == [] {
      assert fs + gs == gs;
    } else {
      assert (fs + gs)[1..] == fs[1..] + gs;
      StreamBytesAppend(fs[1..], gs);
    }
  }

  lemma StreamBytesSingle(f: WireFrame)
    ensures StreamBytes([f]) == FrameBytes(f)
  {
    assert [f][1..] == [];
  }

  // ----- The receiver -----

  /** What the receiver of a stream carries: the writer, if a manifest has arrived, and how often it
      has reported a file as received. As history, `written` lists the chunks handed to the
      writer since it was created. */
  datatype Receiver = Receiver(disk: Option<DiskState>, written: seq<Chunk>, reports: nat)

  const IDLE := Receiver(None, [], 0)

  function StartDisk(r: Receiver, m: FileManifest): Receiver {
    Receiver(Some(Fresh(m)), [], r.reports)
  }

  datatype Iteration = Exit | Continue(receiver: Receiver, rest: bytes)

  datatype Outcome = Outcome(receiver: Receiver, leftOver: bytes)

  function StoreChunk(r: Receiver, c: Chunk): Receiver
    requires r.disk.Some?
  {
    var disk := Stored(r.disk.value, c);
    Receiver(Some(disk), r.written + [c], r.reports + if Complete(disk) then 1 else 0)
  }

  /** One iteration of the receive loop on the unread bytes. */
  function Iterate(input: bytes, r: Receiver): (it: Iteration)
    ensures it.Continue? ==> |it.rest| + PREAMBLE_SIZE <= |input|
  {
    if |input| < HEADER_SIZE then Exit
    else
      match Decode(input[..HEADER_SIZE])
      case Failure(_) => Exit
      case Success(header) =>
        if |input| < PREAMBLE_SIZE then Exit
        else
          var end := PREAMBLE_SIZE + U32FromBe(input[HEADER_SIZE..PREAMBLE_SIZE]);
          if |input| < end then Exit
          else Deliver(header.frameType, input[PREAMBLE_SIZE..end], input[end..], r)
  }

  /** A chunk frame without a writer, or with unreadable metadata, does not take its raw bytes
      off the stream; a chunk cut short takes whatever is left. */
  function Deliver(frameType: byte, payload: bytes, rest: bytes, r: Receiver): (it: Iteration)
    ensures it.Continue? && |it.rest| <= |rest|
  {
    if frameType == TYPE_FILE_MANIFEST then
      match ManifestFromBytes(payload)
      case Some(m) => Continue(StartDisk(r, m), rest)
      case None => Continue(r, rest)
    else if frameType == TYPE_FILE_CHUNK_PAYLOAD && r.disk.Some? then
      match ChunkPayloadFromBytes(payload)
      case Some(meta) =>
        if |rest| < meta.payloadLength then Continue(r, [])
        else Continue(StoreChunk(r, Chunk(meta.chunkIndex, rest[..meta.payloadLength])), rest[meta.payloadLength..])
      case None => Continue(r, rest)
    else Continue(r, rest)
  }

  /** The whole loop. Every iteration that does not leave it takes at least a preamble. */
  function Run(input: bytes, r: Receiver): Outcome
    decreases |input|
  {
    match Iterate(input, r)
    case Exit => Outcome(r, input)
    case Continue(r', rest) => Run(rest, r')
  }

  // ----- What frames mean -----

  function Effect(f: WireFrame, r: Receiver): Receiver {
    match f
    case Announce(m) => StartDisk(r, m)
    case Piece(c) => if r.disk.Some? then StoreChunk(r, c) else r
    case Foreign(_, _) => r
  }

  function Effects(fs: seq<WireFrame>, r: Receiver): Receiver
    decreases |fs|
  {
    if fs == [] then r else Effects(fs[1..], Effect(fs[0], r))
  }

  /** Frames a receiver in state `r` can follow: well framed, and no chunk before a manifest. */
  predicate Followable(fs: seq<WireFrame>, r: Receiver)
    decreases |fs|
  {
    fs == [] || (WellFramed(fs[0]) && (fs[0].Piece? ==> r.disk.Some?) && Followable(fs[1..], Effect(fs[0], r)))
  }

  lemma FramedParts(h: FrameHeader, payload: bytes, tail: bytes)
    requires |payload| < U32_LIMIT
    ensures var input := Framed(h, payload) + tail;
            && |input| == PREAMBLE_SIZE + |payload| + |tail|
            && Decode(input[..HEADER_SIZE]) == Success(h)
            && U32FromBe(input[HEADER_SIZE..PREAMBLE_SIZE]) == |payload|
            && input[PREAMBLE_SIZE..PREAMBLE_SIZE + |payload|] == payload
            && input[PREAMBLE_SIZE + |payload|..] == tail
  {
    var input := Framed(h, payload) + tail;
    assert input[..HEADER_SIZE] == Encode(h) + [];
    DecodeEncoded(h, []);
    assert input[HEADER_SIZE..PREAMBLE_SIZE] == U32ToBe(|payload|);
    U32RoundTrip(|payload|, [0, 0, 0, 0]);
  }

  lemma IterateFramed(h: FrameHeader, payload: bytes, tail: bytes, r: Receiver)
    requires |payload| < U32_LIMIT
    ensures Iterate(Framed(h, payload) + tail, r) == Deliver(h.frameType, payload, tail, r)
  {
    FramedParts(h, payload, tail);
  }

  /** One iteration takes exactly one frame off the stream and has that frame's effect. */
  lemma IterateFrame(f: WireFrame, tail: bytes, r: Receiver)
    requires WellFramed(f) && (f.Piece? ==> r.disk.Some?)
    ensures Iterate(FrameBytes(f) + tail, r) == Continue(Effect(f, r), tail)
  {
    match f
    case Announce(m) =>
      IterateFramed(MANIFEST_HEADER, ManifestToBytes(m), tail, r);
      ManifestRoundTrip(m, []);
      assert ManifestToBytes(m) + [] == ManifestToBytes(m);
    case Piece(c) =>
      IteratePiece(c, tail, r);
    case Foreign(h, payload) =>
      IterateFramed(h, payload, tail, r);
  }

  lemma PieceMetaDecodes(c: Chunk)
    ensures var payload := ChunkPayloadToBytes(PieceMeta(c));
            |payload| < U32_LIMIT && ChunkPayloadFromBytes(payload) == Some(PieceMeta(c))
  {
    var payload := ChunkPayloadToBytes(PieceMeta(c));
    ChunkPayloadRoundTrip(PieceMeta(c), []);
    assert payload + [] == payload;
  }

  lemma DeliverPiece(c: Chunk, payload: bytes, tail: bytes, r: Receiver)
    requires |c.data| < U32_LIMIT && r.disk.Some? && ChunkPayloadFromBytes(payload) == Some(PieceMeta(c))
    ensures Deliver(TYPE_FILE_CHUNK_PAYLOAD, payload, c.data + tail, r) == Continue(StoreChunk(r, c), tail)
  {
    var rest := c.data + tail;
    assert rest[..|c.data|] == c.data && rest[|c.data|..] == tail;
  }

  lemma ConcatAssociates(a: bytes, b: bytes, c: bytes)
    ensures (a + b) + c == a + (b + c)
  {
  }

  lemma IteratePiece(c: Chunk, tail: bytes, r: Receiver)
    requires |c.data| < U32_LIMIT && r.disk.Some?
    ensures Iterate(FrameBytes(Piece(c)) + tail, r) == Continue(StoreChunk(r, c), tail)
  {
    var payload := ChunkPayloadToBytes(PieceMeta(c));
    PieceMetaDecodes(c);
    ConcatAssociates(Framed(PieceHeader(c), payload), c.data, tail);
    IterateFramed(PieceHeader(c), payload, c.data + tail, r);
    DeliverPiece(c, payload, tail, r);
  }

  /** Reading whole frames is applying their effects one by one, whatever follows them. */
  lemma {:induction false} RunFrames(fs: seq<WireFrame>, tail: bytes, r: Receiver)
    requires Followable(fs, r)
    ensures Run(StreamBytes(fs) + tail, r) == Run(tail, Effects(fs, r))
    decreases |fs|
  {
    if fs == [] {
      assert StreamBytes(fs) + tail == tail;
    } else {
      var rest := StreamBytes(fs[1..]) + tail;
      assert StreamBytes(fs) + tail == FrameBytes(fs[0]) + rest;
      IterateFrame(fs[0], rest, r);
      RunFrames(fs[1..], tail, Effect(fs[0], r));
    }
  }

  /** A frame cut anywhere short of its end has no effect at all. */
  lemma CutFrame(f: WireFrame, p: bytes, r: Receiver)
    requires WellFramed(f) && (f.Piece? ==> r.disk.Some?)
    requires p < FrameBytes(f)
    ensures Run(p, r).receiver == r
  {
    match f
    case Announce(m) =>
      CutFramed(MANIFEST_HEADER, ManifestToBytes(m), p, r);
    case Foreign(h, payload) =>
      CutFramed(h, payload, p, r);
    case Piece(c) =>
      var payload := ChunkPayloadToBytes(PieceMeta(c));
      var head := Framed(PieceHeader(c), payload);
      PieceMetaDecodes(c);
      if |p| < |head| {
        CutFramed(PieceHeader(c), payload, p, r);
      } else {
        var tail := p[|head|..];
        assert p == head + tail;
        IterateFramed(PieceHeader(c), payload, tail, r);
        CutDelivery(c, payload, tail, r);
      }
  }

  lemma CutDelivery(c: Chunk, payload: bytes, tail: bytes, r: Receiver)
    requires |tail| < |c.data| < U32_LIMIT && ChunkPayloadFromBytes(payload) == Some(PieceMeta(c)) && r.disk.Some?
    ensures Deliver(TYPE_FILE_CHUNK_PAYLOAD, payload, tail, r) == Continue(r, [])
    ensures Run([], r).receiver == r
  {
  }

  lemma CutFramed(h: FrameHeader, payload: bytes, p: bytes, r: Receiver)
    requires |payload| < U32_LIMIT
    requires p <= Framed(h, payload) && |p| < |Framed(h, payload)|
    ensures Iterate(p, r) == Exit
  {
    FramedParts(h, payload, []);
    var whole := Framed(h, payload) + [];
    if |p| >= PREAMBLE_SIZE {
      assert p[..HEADER_SIZE] == whole[..HEADER_SIZE];
      assert p[HEADER_SIZE..PREAMBLE_SIZE] == whole[HEADER_SIZE..PREAMBLE_SIZE];
    }
  }

  lemma FirstFrames(fs: seq<WireFrame>, n: nat, r: Receiver)
    requires n < |fs|
    ensures StreamBytes(fs[..n + 1]) == FrameBytes(fs[0]) + StreamBytes(fs[1..][..n])
    ensures Effects(fs[..n + 1], r) == Effects(fs[1..][..n], Effect(fs[0], r))
  {
    assert fs[..n + 1][1..] == fs[1..][..n];
  }

  lemma PrefixRest(a: bytes, b: bytes, p: bytes) returns (rest: bytes)
    requires p <= a + b && |a| <= |p|
    ensures p == a + rest && rest <= b
  {
    rest := p[|a|..];
    assert p[..|a|] == (a + b)[..|a|] == a;
    assert rest == (a + b)[|a|..|p|];
  }

  /** Cut a followable stream anywhere: the receiver is left with the effects of the frames that
      arrived whole, and nothing of the one that was cut. */
  lemma {:induction false} RunCut(fs: seq<WireFrame>, p: bytes, r: Receiver) returns (k: nat)
    requires Followable(fs, r) && p <= StreamBytes(fs)
    ensures k <= |fs| && |StreamBytes(fs[..k])| <= |p|
    ensures k < |fs| ==> |p| < |StreamBytes(fs[..k + 1])|
    ensures Run(p, r).receiver == Effects(fs[..k], r)
    decreases |fs|
  {
    if fs == [] {
      k := 0;
    } else if |p| < |FrameBytes(fs[0])| {
      k := 0;
      FirstFrames(fs, 0, r);
      CutFrame(fs[0], p, r);
    } else {
      var rest := PrefixRest(FrameBytes(fs[0]), StreamBytes(fs[1..]), p);
      IterateFrame(fs[0], rest, r);
      var n := RunCut(fs[1..], rest, Effect(fs[0], r));
      k := n + 1;
      FirstFrames(fs, n, r);
      if k < |fs| {
        FirstFrames(fs, k, r);
      }
    }
  }

  // ----- Frames of other types -----

  function WithoutForeign(fs: seq<WireFrame>): seq<WireFrame> {
    if fs == [] then []
    else (if fs[0].Foreign? then [] else [fs[0]]) + WithoutForeign(fs[1..])
  }

  /** Frames of other types can be inserted or removed anywhere between frames: the receiver ends
      in the same state, having read everything. */
  lemma {:induction false} ForeignFramesAreTransparent(fs: seq<WireFrame>, r: Receiver)
    requires Followable(fs, r)
    ensures Followable(WithoutForeign(fs), r)
    ensures Run(StreamBytes(fs), r) == Run(StreamBytes(WithoutForeign(fs)), r)
    ensures Run(StreamBytes(fs), r).leftOver == []
    decreases |fs|
  {
    if fs != [] {
      var r' := Effect(fs[0], r);
      ForeignFramesAreTransparent(fs[1..], r');
      IterateFrame(fs[0], StreamBytes(fs[1..]), r);
      if !fs[0].Foreign? {
        var gs := WithoutForeign(fs);
        assert gs[1..] == WithoutForeign(fs[1..]);
        IterateFrame(fs[0], StreamBytes(gs[1..]), r);
      } else {
        assert WithoutForeign(fs) == WithoutForeign(fs[1..]);
      }
    }
  }

  // ----- Frames in bytes, and frames that are no use -----

  /** What the two kinds of frame look like on the wire, byte by byte up to the metadata. */
  lemma FrameLayout(m: FileManifest, c: Chunk)
    ensures var (meta, lead) := (ManifestToBytes(m), [0x49, 0x01, 0x05, 0x00, 0x00, 0x00]);
            FrameBytes(Announce(m)) == lead + [0, 0, 0, 0] + U32ToBe(|meta| % 0x1_0000_0000) + meta
    ensures var meta := ChunkPayloadToBytes(ChunkPayload(c.index, |c.data| % 0x1_0000_0000));
            var lead := [0x49, 0x01, 0x06, 0x00, 0x00, 0x00];
            FrameBytes(Piece(c)) == lead + U32ToBe(c.index) + U32ToBe(|meta| % 0x1_0000_0000) + meta + c.data
  {
    Layout(MANIFEST_HEADER);
    Layout(PieceHeader(c));
    BigEndian(c.index);
  }

  /** A manifest or chunk header that does not decode, and a chunk before any manifest, are
      skipped; the raw bytes after such a chunk frame are then read as the next frame. */
  lemma UselessFrames(h: FrameHeader, payload: bytes, tail: bytes, r: Receiver)
    requires |payload| < U32_LIMIT
    requires (h.frameType == 0x05 && ManifestFromBytes(payload).None?)
             || (h.frameType == 0x06 && (r.disk.None? || ChunkPayloadFromBytes(payload).None?))
    ensures Run(Framed(h, payload) + tail, r) == Run(tail, r)
  {
    IterateFramed(h, payload, tail, r);
  }

  /** Once every chunk is there, a further chunk frame changes nothing on disk and reports again. */
  lemma ReportsAgain(c: Chunk, r: Receiver)
    requires r.disk.Some? && WellFormed(r.disk.value) && Complete(r.disk.value)
    ensures Effect(Piece(c), r).disk == r.disk && Effect(Piece(c), r).reports == r.reports + 1
  {
  }

  /** A header with another magic byte or version ends the loop, with the rest unread. */
  lemma BadHeaderEnds(input: bytes, r: Receiver)
    requires |input| >= 10 && (input[0] != 0x49 || input[1] != 0x01)
    ensures Run(input, r) == Outcome(r, input)
  {
    RefusedBecause(input[..10]);
  }

  // ----- Any bytes at all -----

  /** The writer's state is that of a new one after the chunks handed to it. */
  predicate Explained(r: Receiver) {
    r.disk.Some? ==> r.disk.value == StoredAll(Fresh(r.disk.value.manifest), r.written)
  }

  lemma StoreExplained(r: Receiver, c: Chunk)
    requires r.disk.Some? && Explained(r)
    ensures Explained(StoreChunk(r, c))
  {
    StoredAllSnoc(Fresh(r.disk.value.manifest), r.written, c);
  }

  lemma DeliverExplained(frameType: byte, payload: bytes, rest: bytes, r: Receiver)
    requires Explained(r)
    ensures Explained(Deliver(frameType, payload, rest, r).receiver)
  {
    if frameType != TYPE_FILE_MANIFEST && r.disk.Some? && ChunkPayloadFromBytes(payload).Some? {
      var meta := ChunkPayloadFromBytes(payload).value;
      if meta.payloadLength <= |rest| {
        StoreExplained(r, Chunk(meta.chunkIndex, rest[..meta.payloadLength]));
      }
    }
  }

  lemma {:induction false} RunExplained(input: bytes, r: Receiver)
    requires Explained(r)
    ensures Explained(Run(input, r).receiver)
    decreases |input|
  {
    match Iterate(input, r)
    case Exit =>
    case Continue(r', rest) =>
      var end := PREAMBLE_SIZE + U32FromBe(input[HEADER_SIZE..PREAMBLE_SIZE]);
      DeliverExplained(Decode(input[..HEADER_SIZE]).value.frameType, input[PREAMBLE_SIZE..end], input[end..], r);
      RunExplained(rest, r');
  }

  /** On any finite byte stream, well formed or not, the disk and the bitset are what the chunks
      written since the latest manifest make of a new writer, and bit i is set if and only if one
      of those chunks has index i. */
  lemma AnyStream(input: bytes)
    ensures var r := Run(input, IDLE).receiver;
            r.disk.Some? ==>
              var p := r.disk.value;
              && WellFormed(p) && p == StoredAll(Fresh(p.manifest), r.written)
              && forall i :: 0 <= i < |p.received| ==> (p.received[i] <==> Occurs(r.written, i))
  {
    RunExplained(input, IDLE);
    var r := Run(input, IDLE).receiver;
    if r.disk.Some? {
      var m := r.disk.value.manifest;
      StoredAllWellFormed(Fresh(m), r.written);
      forall i | 0 <= i < m.totalChunks
        ensures r.disk.value.received[i] <==> Occurs(r.written, i)
      {
        BitsRecordIndices(Fresh(m), r.written, i);
      }
    }
  }
}
