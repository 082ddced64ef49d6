/** Writing received chunks to disk, and the bitset of chunks received. */
module Writer {
  import opened Bytes
  import opened Manifest
  import opened Storage

  // ----- Specification on values -----

  /** What a writer holds: the manifest it was made for, the disk file, the bitset. */
  datatype DiskState = DiskState(manifest: FileManifest, contents: bytes, received: seq<bool>)

  datatype Chunk = Chunk(index: u32, data: bytes)

  function Fresh(m: FileManifest): DiskState {
    DiskState(m, Zeros(m.fileSize), seq(m.totalChunks, _ => false))
  }

  predicate WellFormed(p: DiskState) {
    |p.received| == p.manifest.totalChunks
  }

  predicate Accepts(p: DiskState, index: u32) {
    index < p.manifest.totalChunks && index < |p.received| && !p.received[index]
  }

  function Stored(p: DiskState, c: Chunk): DiskState {
    if Accepts(p, c.index) then
      p.(contents := WriteAt(p.contents, c.index * CHUNK_SIZE, c.data),
         received := p.received[c.index := true])
    else p
  }

  function StoredAll(p: DiskState, cs: seq<Chunk>): DiskState
    decreases |cs|
  {
    if cs == [] then p else StoredAll(Stored(p, cs[0]), cs[1..])
  }

  predicate Complete(p: DiskState) {
    forall i :: 0 <= i < |p.received| ==> p.received[i]
  }

  // ----- The writer -----

  class DiskWriter {
    const file: File
    const manifest: FileManifest
    var received: seq<bool>

    ghost function View(): DiskState
      reads this, file
    {
      DiskState(manifest, file.contents, received)
    }

    constructor (manifest: FileManifest)
      ensures fresh(file) && View() == Fresh(manifest)
    {
      this.manifest := manifest;
      file := new File.Create();
      received := seq(manifest.totalChunks, _ => false);
      new;
      if manifest.fileSize > 0 {
        file.Seek(manifest.fileSize - 1);
        file.WriteAll([0]);
      }
      assert file.contents == Zeros(manifest.fileSize);
    }

    /** Fails for an index out of range; otherwise the chunk is stored, or already was. */
    method WriteChunk(chunkIndex: u32, payload: bytes) returns (ok: bool)
      requires WellFormed(View())
      modifies this, file
      ensures View() == Stored(old(View()), Chunk(chunkIndex, payload))
      ensures WellFormed(View())
      ensures ok <==> chunkIndex < manifest.totalChunks
    {
      if chunkIndex >= manifest.totalChunks {
        return false;
      }
      if received[chunkIndex] {
        return true;
      }
      var offset := chunkIndex * CHUNK_SIZE;
      file.Seek(offset);
      file.WriteAll(payload);
      received := received[chunkIndex := true];
      ok := true;
    }

    method IsComplete() returns (all: bool)
      ensures all <==> Complete(View())
    {
      all := forall i :: 0 <= i < |received| ==> received[i];
    }
  }

  // ----- What any sequence of writes leaves behind -----

  lemma {:induction false} StoredAllWellFormed(p: DiskState, cs: seq<Chunk>)
    requires WellFormed(p)
    ensures WellFormed(StoredAll(p, cs)) && StoredAll(p, cs).manifest == p.manifest
    decreases |cs|
  {
    if cs != [] {
      StoredAllWellFormed(Stored(p, cs[0]), cs[1..]);
    }
  }

  lemma {:induction false} StoredAllSnoc(p: DiskState, cs: seq<Chunk>, last: Chunk)
    ensures StoredAll(p, cs + [last]) == Stored(StoredAll(p, cs), last)
    decreases |cs|
  {
    if cs == [] {
      assert StoredAll(Stored(p, last), []) == Stored(p, last);
    } else {
      assert (cs + [last])[1..] == cs[1..] + [last];
      StoredAllSnoc(Stored(p, cs[0]), cs[1..], last);
    }
  }

  ghost predicate Occurs(cs: seq<Chunk>, i: nat) {
    exists k :: 0 <= k < |cs| && cs[k].index == i
  }

  /** Whatever the chunks are, a bit is set exactly if it was set before or its index occurs. */
  lemma {:induction false} BitsRecordIndices(p: DiskState, cs: seq<Chunk>, i: nat)
    requires WellFormed(p) && i < p.manifest.totalChunks
    ensures WellFormed(StoredAll(p, cs)) && StoredAll(p, cs).manifest == p.manifest
    ensures StoredAll(p, cs).received[i] <==> p.received[i] || Occurs(cs, i)
    decreases |cs|
  {
    StoredAllWellFormed(p, cs);
    if cs != [] {
      BitsRecordIndices(Stored(p, cs[0]), cs[1..], i);
      assert Occurs(cs, i) <==> cs[0].index == i || Occurs(cs[1..], i) by {
        if Occurs(cs[1..], i) {
          var k :| 0 <= k < |cs[1..]| && cs[1..][k].index == i;
          assert cs[k + 1].index == i;
        }
        if Occurs(cs, i) && cs[0].index != i {
          var k :| 0 <= k < |cs| && cs[k].index == i;
          assert cs[1..][k - 1].index == i;
        }
      }
    }
  }

  /** The first write of a chunk wins: one with an index that has occurred changes nothing, whatever
      its bytes, and nor does one with an index out of range. */
  lemma FirstWriteWins(m: FileManifest, cs: seq<Chunk>, c: Chunk)
    requires Occurs(cs, c.index) || c.index >= m.totalChunks
    ensures StoredAll(Fresh(m), cs + [c]) == StoredAll(Fresh(m), cs)
  {
    StoredAllSnoc(Fresh(m), cs, c);
    StoredAllWellFormed(Fresh(m), cs);
    if c.index < m.totalChunks {
      BitsRecordIndices(Fresh(m), cs, c.index);
    }
  }

  /** Byte `j` of a file of `n` bytes lies in a chunk whose bit is set. */
  predicate Arrived(received: seq<bool>, n: u64, j: nat)
    requires |received| == TotalChunks(n)
  {
    var i := j / CHUNK_SIZE;
    i < |received| && received[i] && j % CHUNK_SIZE < ChunkLength(n, i)
  }

  /** The disk shows the source where chunks have arrived, and zeros elsewhere. */
  ghost predicate Agrees(p: DiskState, source: Source) {
    && |p.contents| == |source| == p.manifest.fileSize
    && |p.received| == p.manifest.totalChunks == TotalChunks(|source|)
    && forall j :: 0 <= j < |source| ==>
         p.contents[j] == if Arrived(p.received, |source|, j) then source[j] else 0
  }

  ghost predicate IsManifestOf(m: FileManifest, source: Source) {
    m.fileSize == |source| && m.totalChunks == TotalChunks(|source|)
  }

  /** In-range chunks carry the source's bytes; nothing is said of the others. */
  ghost predicate Genuine(cs: seq<Chunk>, source: Source) {
    forall k :: 0 <= k < |cs| && cs[k].index < TotalChunks(|source|) ==>
      cs[k].data == SourceChunk(source, cs[k].index)
  }

  lemma StoredAgrees(p: DiskState, source: Source, c: Chunk)
    requires Agrees(p, source)
    requires c.index < TotalChunks(|source|) ==> c.data == SourceChunk(source, c.index)
    ensures Agrees(Stored(p, c), source)
  {
    if Accepts(p, c.index) {
      var q := Stored(p, c);
      var offset := c.index * CHUNK_SIZE;
      forall j | 0 <= j < |source|
        ensures q.contents[j] == if Arrived(q.received, |source|, j) then source[j] else 0
      {
        if j / CHUNK_SIZE == c.index {
          assert j - offset == j % CHUNK_SIZE;
          assert !Arrived(p.received, |source|, j);
        } else {
          assert !(offset <= j < offset + |c.data|);
          assert Arrived(q.received, |source|, j) == Arrived(p.received, |source|, j);
        }
      }
    }
  }

  lemma {:induction false} StoredAllAgrees(p: DiskState, source: Source, cs: seq<Chunk>)
    requires Agrees(p, source) && Genuine(cs, source)
    ensures Agrees(StoredAll(p, cs), source)
    decreases |cs|
  {
    if cs != [] {
      StoredAgrees(p, source, cs[0]);
      assert Genuine(cs[1..], source) by {
        forall k | 0 <= k < |cs[1..]| && cs[1..][k].index < TotalChunks(|source|)
          ensures cs[1..][k].data == SourceChunk(source, cs[1..][k].index)
        {
          assert cs[1..][k] == cs[k + 1];
        }
      }
      StoredAllAgrees(Stored(p, cs[0]), source, cs[1..]);
    }
  }

  /** When every bit is set the disk holds every byte that any chunk covers, and zeros after. */
  lemma CompleteContents(p: DiskState, source: Source)
    requires Agrees(p, source) && Complete(p)
    ensures var covered := Covered(|source|, TotalChunks(|source|));
            p.contents == source[..covered] + Zeros(|source| - covered)
  {
    var n := |source|;
    var covered := Covered(n, TotalChunks(n));
    forall j | 0 <= j < n
      ensures Arrived(p.received, n, j) <==> j < covered
    {
    }
    assert forall j :: 0 <= j < n ==> p.contents[j] == (source[..covered] + Zeros(n - covered))[j];
  }

  /** Any chunks of the source, in any order, with repeats and stray indices: the disk keeps its
      length, shows the source on what arrived and zeros elsewhere, and completion means exactly
      that every index has occurred. */
  lemma OrderIndependent(m: FileManifest, source: Source, cs: seq<Chunk>)
    requires IsManifestOf(m, source) && Genuine(cs, source)
    ensures var p := StoredAll(Fresh(m), cs);
            && Agrees(p, source)
            && (forall i :: 0 <= i < m.totalChunks ==> (p.received[i] <==> Occurs(cs, i)))
            && (Complete(p) <==> forall i :: 0 <= i < m.totalChunks ==> Occurs(cs, i))
  {
    assert Agrees(Fresh(m), source);
    StoredAllAgrees(Fresh(m), source, cs);
    forall i | 0 <= i < m.totalChunks
      ensures StoredAll(Fresh(m), cs).received[i] <==> Occurs(cs, i)
    {
      BitsRecordIndices(Fresh(m), cs, i);
    }
  }

  /** A complete writer holds the source, whatever the order of arrival, for every file whose
      chunks cover it; for a larger file it does so exactly if the uncovered tail is zeros. */
  lemma CompleteMeansSource(m: FileManifest, source: Source, cs: seq<Chunk>)
    requires IsManifestOf(m, source) && Genuine(cs, source)
    requires Complete(StoredAll(Fresh(m), cs))
    ensures |source| <= MAX_FILE_SIZE ==> StoredAll(Fresh(m), cs).contents == source
    ensures var covered := Covered(|source|, TotalChunks(|source|));
            StoredAll(Fresh(m), cs).contents == source <==> source[covered..] == Zeros(|source| - covered)
  {
    var p := StoredAll(Fresh(m), cs);
    var covered := Covered(|source|, TotalChunks(|source|));
    OrderIndependent(m, source, cs);
    CompleteContents(p, source);
    CoversIff(|source|);
    assert source == source[..covered] + source[covered..];
    if p.contents == source {
      assert source[covered..] == p.contents[covered..] == Zeros(|source| - covered);
    }
  }
}
