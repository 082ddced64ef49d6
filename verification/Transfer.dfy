/** What a receiver makes of a sender's stream: whole, cut short, or ended early by the sender;
    and what the progress reports say about it. */
module Transfer {
  import opened Wrappers
  import opened Bytes
  import opened Postcard
  import opened Manifest
  import opened Storage
  import opened Chunker
  import opened Writer
  import opened Wire
  import opened Stream

  /** The first k chunks of the source, in order. */
  function FirstChunks(source: Source, k: nat): (cs: seq<Chunk>)
    requires k <= TotalChunks(|source|)
    ensures |cs| == k && Genuine(cs, source)
    ensures forall i :: 0 <= i < k ==> cs[i].index == i
  {
    seq(k, i requires 0 <= i < k => Chunk(i, SourceChunk(source, i)))
  }

  /** The receiver that has read the manifest and the first k chunks, after `earlier` reports. */
  function AfterChunks(m: FileManifest, source: Source, k: nat, earlier: nat): Receiver
    requires k <= TotalChunks(|source|)
  {
    Receiver(Some(StoredAll(Fresh(m), FirstChunks(source, k))), FirstChunks(source, k),
             earlier + if k == TotalChunks(|source|) && k > 0 then 1 else 0)
  }

  lemma {:induction false} EffectsSnoc(fs: seq<WireFrame>, last: WireFrame, r: Receiver)
    ensures Effects(fs + [last], r) == Effect(last, Effects(fs, r))
    decreases |fs|
  {
    if fs == [] {
      assert Effects([last], r) == Effects([], Effect(last, r));
    } else {
      assert (fs + [last])[1..] == fs[1..] + [last];
      EffectsSnoc(fs[1..], last, Effect(fs[0], r));
    }
  }

  lemma FirstChunksOccur(source: Source, k: nat, i: nat)
    requires k <= TotalChunks(|source|)
    ensures Occurs(FirstChunks(source, k), i) <==> i < k
  {
    if i < k {
      assert FirstChunks(source, k)[i].index == i;
    }
  }

  lemma CompleteAfter(m: FileManifest, source: Source, k: nat)
    requires IsManifestOf(m, source) && k <= TotalChunks(|source|)
    ensures Complete(StoredAll(Fresh(m), FirstChunks(source, k))) <==> k == TotalChunks(|source|)
  {
    OrderIndependent(m, source, FirstChunks(source, k));
    forall i | 0 <= i < m.totalChunks
      ensures Occurs(FirstChunks(source, k), i) <==> i < k
    {
      FirstChunksOccur(source, k, i);
    }
    if k < TotalChunks(|source|) {
      FirstChunksOccur(source, k, k);
    }
  }

  lemma OneMoreChunk(m: FileManifest, source: Source, k: nat, earlier: nat)
    requires IsManifestOf(m, source) && k < TotalChunks(|source|)
    ensures Effect(Piece(Chunk(k, SourceChunk(source, k))), AfterChunks(m, source, k, earlier))
         == AfterChunks(m, source, k + 1, earlier)
  {
    var c := Chunk(k, SourceChunk(source, k));
    assert FirstChunks(source, k + 1) == FirstChunks(source, k) + [c];
    StoredAllSnoc(Fresh(m), FirstChunks(source, k), c);
    CompleteAfter(m, source, k + 1);
  }

  /** Whatever a receiver has read before, the sender's first frames leave it with a new writer
      that holds the first k chunks. */
  lemma {:induction false} EffectsOfSender(m: FileManifest, source: Source, k: nat, r: Receiver)
    requires IsManifestOf(m, source) && k <= TotalChunks(|source|)
    ensures Effects(SenderFrames(m, source)[..k + 1], r) == AfterChunks(m, source, k, r.reports)
  {
    var fs := SenderFrames(m, source);
    if k == 0 {
      assert fs[..1] == [] + [Announce(m)];
      EffectsSnoc([], Announce(m), r);
      assert FirstChunks(source, 0) == [];
    } else {
      EffectsOfSender(m, source, k - 1, r);
      assert fs[..k + 1] == fs[..k] + [fs[k]];
      EffectsSnoc(fs[..k], fs[k], r);
      OneMoreChunk(m, source, k - 1, r.reports);
    }
  }

  lemma {:induction false} PiecesFollowable(fs: seq<WireFrame>, r: Receiver)
    requires r.disk.Some?
    requires forall i :: 0 <= i < |fs| ==> fs[i].Piece? && WellFramed(fs[i])
    ensures Followable(fs, r)
    decreases |fs|
  {
    if fs != [] {
      PiecesFollowable(fs[1..], Effect(fs[0], r));
    }
  }

  lemma SenderFollowable(m: FileManifest, source: Source, k: nat, r: Receiver)
    requires WellFramed(Announce(m)) && k <= TotalChunks(|source|)
    ensures Followable(SenderFrames(m, source)[..k + 1], r)
  {
    var fs := SenderFrames(m, source)[..k + 1];
    assert fs[1..] == SenderPieces(source)[..k];
    PiecesFollowable(fs[1..], Effect(Announce(m), r));
  }

  /** What the receiver's disk and bitset show after the first k chunks. */
  ghost predicate ShowsFirst(p: DiskState, source: Source, k: nat)
    requires k <= TotalChunks(|source|)
  {
    && |p.contents| == |source| && |p.received| == TotalChunks(|source|)
    && (forall i :: 0 <= i < |p.received| ==> (p.received[i] <==> i < k))
    && p.contents == source[..Covered(|source|, k)] + Zeros(|source| - Covered(|source|, k))
  }

  lemma ShowsAfter(m: FileManifest, source: Source, k: nat)
    requires IsManifestOf(m, source) && k <= TotalChunks(|source|)
    ensures ShowsFirst(StoredAll(Fresh(m), FirstChunks(source, k)), source, k)
  {
    var p, n := StoredAll(Fresh(m), FirstChunks(source, k)), |source|;
    OrderIndependent(m, source, FirstChunks(source, k));
    forall i | 0 <= i < |p.received|
      ensures p.received[i] <==> i < k
    {
      FirstChunksOccur(source, k, i);
    }
    forall j | 0 <= j < n
      ensures Arrived(p.received, n, j) <==> j < Covered(n, k)
    {
    }
    assert forall j :: 0 <= j < n ==> p.contents[j] == (source[..Covered(n, k)] + Zeros(n - Covered(n, k)))[j];
  }

  /** The sender stops after k chunks, at the end or because its client is gone: the receiver,
      whatever it has read before, has read everything, holds exactly those chunks, and reported
      completion only if they are all. */
  lemma WholeFrames(m: FileManifest, source: Source, k: nat, r: Receiver)
    requires IsManifestOf(m, source) && WellFramed(Announce(m)) && k <= TotalChunks(|source|)
    ensures Run(Sent(m, source, k), r) == Outcome(AfterChunks(m, source, k, r.reports), [])
    ensures var disk := AfterChunks(m, source, k, r.reports).disk.value;
            disk.manifest == m && ShowsFirst(disk, source, k)
  {
    var fs := SenderFrames(m, source)[..k + 1];
    SenderFollowable(m, source, k, r);
    RunFrames(fs, [], r);
    assert StreamBytes(fs) + [] == StreamBytes(fs);
    EffectsOfSender(m, source, k, r);
    ShowsAfter(m, source, k);
    StoredAllWellFormed(Fresh(m), FirstChunks(source, k));
  }

  /** End to end: the receive loop on any frames it can follow and then exactly what was sent for
      a whole file. Nothing of what came before is left: the writer is that of the new manifest,
      every bit is set and nothing is left over; up to the size bound the disk file is the source,
      byte for byte, and above it the receiver reports completion with the uncovered tail
      zeroed. */
  lemma EndToEnd(before: seq<WireFrame>, m: FileManifest, source: Source)
    requires IsManifestOf(m, source) && WellFramed(Announce(m)) && Followable(before, IDLE)
    ensures var total := TotalChunks(|source|);
            var covered := Covered(|source|, total);
            var out := Run(StreamBytes(before) + Sent(m, source, total), IDLE);
            && out.leftOver == []
            && out.receiver.disk.Some?
            && out.receiver.disk.value.manifest == m
            && Complete(out.receiver.disk.value)
            && out.receiver.reports == Effects(before, IDLE).reports + (if |source| > 0 then 1 else 0)
            && out.receiver.disk.value.contents == source[..covered] + Zeros(|source| - covered)
            && (|source| <= MAX_FILE_SIZE ==> out.receiver.disk.value.contents == source)
  {
    var total := TotalChunks(|source|);
    hide StreamBytes, Followable, Effects, Run, Sent;
    RunFrames(before, Sent(m, source, total), IDLE);
    WholeFrames(m, source, total, Effects(before, IDLE));
    CompleteAfter(m, source, total);
    CoversIff(|source|);
  }

  lemma CutSender(m: FileManifest, source: Source, p: bytes) returns (k: nat)
    requires WellFramed(Announce(m))
    requires p <= Sent(m, source, TotalChunks(|source|)) && |Sent(m, source, 0)| <= |p|
    ensures k <= TotalChunks(|source|) && |Sent(m, source, k)| <= |p|
    ensures k < TotalChunks(|source|) ==> |p| < |Sent(m, source, k + 1)|
    ensures Run(p, IDLE).receiver == Effects(SenderFrames(m, source)[..k + 1], IDLE)
  {
    var fs := SenderFrames(m, source);
    SenderFollowable(m, source, TotalChunks(|source|), IDLE);
    assert fs[..|fs|] == fs;
    var frames := RunCut(fs, p, IDLE);
    k := frames - 1;
  }

  /** Cut the stream anywhere after the manifest frame: k is the number of chunk frames that
      arrived whole, and the receiver is where those k chunks leave it. */
  lemma PrefixSafety(m: FileManifest, source: Source, p: bytes) returns (k: nat)
    requires IsManifestOf(m, source) && WellFramed(Announce(m))
    requires p <= Sent(m, source, TotalChunks(|source|)) && |Sent(m, source, 0)| <= |p|
    ensures k <= TotalChunks(|source|) && |Sent(m, source, k)| <= |p|
    ensures k < TotalChunks(|source|) ==> |p| < |Sent(m, source, k + 1)|
    ensures var r := Run(p, IDLE).receiver;
            && r.disk.Some? && r.disk.value.manifest == m && ShowsFirst(r.disk.value, source, k)
            && r.reports == if k == TotalChunks(|source|) && k > 0 then 1 else 0
  {
    k := CutSender(m, source, p);
    EffectsOfSender(m, source, k, IDLE);
    ShowsAfter(m, source, k);
    StoredAllWellFormed(Fresh(m), FirstChunks(source, k));
  }

  /** Frames of other types between the sender's frames change nothing the receiver ends with. */
  lemma ForeignFramesInTransfer(m: FileManifest, source: Source, fs: seq<WireFrame>)
    requires IsManifestOf(m, source) && WellFramed(Announce(m))
    requires forall i :: 0 <= i < |fs| ==> WellFramed(fs[i])
    requires WithoutForeign(fs) == SenderFrames(m, source)
    ensures Run(StreamBytes(fs), IDLE) == Run(Sent(m, source, TotalChunks(|source|)), IDLE)
  {
    var gs := SenderFrames(m, source);
    assert gs[..|gs|] == gs;
    SenderFollowable(m, source, TotalChunks(|source|), IDLE);
    FollowableWithForeign(fs, IDLE);
    ForeignFramesAreTransparent(fs, IDLE);
  }

  lemma {:induction false} FollowableWithForeign(fs: seq<WireFrame>, r: Receiver)
    requires forall i :: 0 <= i < |fs| ==> WellFramed(fs[i])
    requires Followable(WithoutForeign(fs), r)
    ensures Followable(fs, r)
    decreases |fs|
  {
    if fs != [] {
      var gs := WithoutForeign(fs);
      if fs[0].Foreign? {
        assert gs == WithoutForeign(fs[1..]);
      } else {
        assert gs[1..] == WithoutForeign(fs[1..]);
      }
      FollowableWithForeign(fs[1..], Effect(fs[0], r));
    }
  }

  // ----- The code of both sides -----

  /** The update that goes out with chunk i: how much of the file is sent, and whether it is all. */
  predicate IsUpdate(p: TransferProgress, transferId: Text, size: u64, i: nat)
    requires i < TotalChunks(size)
  {
    && p.transferId == transferId && p.totalBytes == size && p.bytesTransferred == Covered(size, i + 1)
    && p.status == if i == TotalChunks(size) - 1 then Completed else Streaming
  }

  method SendSource(source: Source, transferId: Text, fileName: Text, rootHash: Hash, capacity: nat)
      returns (written: bytes, updates: seq<TransferProgress>)
    ensures var m := NewManifest(transferId, fileName, |source|, rootHash);
            written == Sent(m, source, ChunksSent(TotalChunks(|source|), capacity))
    ensures var total := TotalChunks(|source|);
            && |updates| == Min(capacity, UpdateCount(total))
            && forall u :: 0 <= u < |updates| ==>
                 IsUpdate(updates[u], transferId, |source|, UpdateChunk(total, u))
  {
    var file := new File.Open(source);
    var chunker := new FileChunker(transferId, fileName, file, rootHash);
    var sendStream := new SendStream();
    var sink := new ProgressSink(capacity);
    var _ := SendFile(sendStream, chunker, sink);
    written, updates := sendStream.written, sink.updates;
  }

  /** The code end to end: the sender on a file, then the receiver on exactly what it wrote. The
      receiver's manifest is what the sender was given; it shows the chunks that went out before
      the client stopped listening; if the client takes all updates, or all but the last, its file
      is the source. The updates are of this transfer. */
  method SendAndReceive(source: Source, transferId: Text, fileName: Text, rootHash: Hash, capacity: nat)
      returns (writer: DiskWriter?, reports: nat, updates: seq<TransferProgress>)
    requires WellFramed(Announce(NewManifest(transferId, fileName, |source|, rootHash)))
    ensures writer != null
    ensures var m := writer.manifest;
            && m.transferId == transferId && m.fileName == fileName && m.rootHash == rootHash
            && m.fileSize == |source| && m.chunkSize == 65536 && m.totalChunks == TotalChunks(|source|)
    ensures var total := TotalChunks(|source|);
            var sent := ChunksSent(total, capacity);
            && ShowsFirst(writer.View(), source, sent)
            && reports == (if sent == total && total > 0 then 1 else 0)
    ensures |source| <= MAX_FILE_SIZE && UpdateCount(TotalChunks(|source|)) <= capacity + 1 ==>
      writer.file.contents == source && Complete(writer.View())
    ensures var total := TotalChunks(|source|);
            && |updates| == Min(capacity, UpdateCount(total))
            && forall u :: 0 <= u < |updates| ==>
                 IsUpdate(updates[u], transferId, |source|, UpdateChunk(total, u))
  {
    hide Run, Sent, FirstChunks, StoredAll;
    var written;
    written, updates := SendSource(source, transferId, fileName, rootHash, capacity);
    var recvStream := new RecvStream(written);
    assert written[0..] == written;
    ghost var chunks;
    writer, reports, chunks := ReceiveFile(recvStream);

    ghost var total := TotalChunks(|source|);
    TotalChunksIsCeiling(|source|);
    WholeFrames(NewManifest(transferId, fileName, |source|, rootHash), source, ChunksSent(total, capacity), IDLE);
    CompleteSendIff(total, capacity);
    CoversIff(|source|);
  }

  // ----- Progress -----

  /** Updates go out with chunks 0, 50, 100, ... and the last, with each of them once and in
      order; the first update the client does not take ends the transfer after its chunk. */
  lemma UpdateSchedule(total: u32, capacity: nat)
    ensures forall i :: 0 <= i < total ==>
      ((i % 50 == 0 || i == total - 1) <==> exists u :: 0 <= u < UpdateCount(total) && UpdateChunk(total, u) == i)
    ensures forall u, v :: 0 <= u < v < UpdateCount(total) ==> UpdateChunk(total, u) < UpdateChunk(total, v)
    ensures ChunksSent(total, capacity)
         == if capacity < UpdateCount(total) then UpdateChunk(total, capacity) + 1 else total
  {
    forall i | 0 <= i < total && (i % 50 == 0 || i == total - 1)
      ensures exists u :: 0 <= u < UpdateCount(total) && UpdateChunk(total, u) == i
    {
      assert UpdateChunk(total, (i + 49) / 50) == i;
    }
  }

  /** The updates of a complete send, for every file size: the byte counts strictly increase and
      exactly the last is Completed. Within the size bound each reports the end of its chunk.
      The last one reports the whole file if and only if the file is within the bound. */
  lemma ProgressIsFaithful(m: FileManifest, u: nat)
    requires m.totalChunks == ComputedChunks(m.fileSize) && u < UpdateCount(m.totalChunks)
    ensures Update(m, u).totalBytes == m.fileSize && Update(m, u).transferId == m.transferId
    ensures u > 0 ==> Update(m, u - 1).bytesTransferred < Update(m, u).bytesTransferred
    ensures Update(m, u).status == Completed <==> u == UpdateCount(m.totalChunks) - 1
    ensures m.fileSize <= MAX_FILE_SIZE ==>
      Update(m, u).bytesTransferred == Min((UpdateChunk(m.totalChunks, u) + 1) * 65536, m.fileSize)
    ensures Update(m, u).status == Completed ==>
      (Update(m, u).bytesTransferred == m.fileSize <==> m.fileSize <= 0xFFFF_FFFF * 65536)
    ensures Update(m, u).status == Streaming ==> Update(m, u).bytesTransferred < m.fileSize
  {
    TotalChunksIsCeiling(m.fileSize);
  }

  /** A send counts as complete exactly if the client takes all updates, or all but the last. */
  lemma CompleteSendIff(total: u32, capacity: nat)
    ensures ChunksSent(total, capacity) == total <==> capacity + 1 >= UpdateCount(total)
    ensures total > 0 ==> UpdateCount(total) > 0
  {
  }
}
