/** Reading a source file chunk by chunk. */
module Chunker {
  import opened Wrappers
  import opened Bytes
  import opened Postcard
  import opened Manifest
  import opened Storage

  datatype ReadError = IndexOutOfBounds(index: u32) | UnexpectedEof

  class FileChunker {
    const file: File
    const manifest: FileManifest

    ghost predicate Valid() {
      manifest.totalChunks == TotalChunks(manifest.fileSize)
    }

    /** The file still has the size the manifest was made for. */
    ghost predicate Intact()
      reads file
    {
      |file.contents| == manifest.fileSize
    }

    constructor (transferId: Text, fileName: Text, file: File, rootHash: Hash)
      requires |file.contents| < U64_LIMIT
      ensures Valid() && Intact() && this.file == file
      ensures manifest == NewManifest(transferId, fileName, |file.contents|, rootHash)
      ensures manifest.transferId == transferId && manifest.fileName == fileName && manifest.rootHash == rootHash
      ensures manifest.fileSize == |file.contents| && manifest.chunkSize == 65536
    {
      this.file := file;
      TotalChunksIsCeiling(|file.contents|);
      this.manifest := NewManifest(transferId, fileName, |file.contents|, rootHash);
    }

    /** Every index below the chunk count yields that chunk of the file, in any order of calls;
        no other index yields anything. Reading fails only if the file has shrunk. */
    method ReadChunk(chunkIndex: u32) returns (r: Result<(ChunkPayload, bytes), ReadError>)
      requires Valid()
      modifies file`pos
      ensures r == Failure(IndexOutOfBounds(chunkIndex)) <==> chunkIndex >= manifest.totalChunks
      ensures r.Success? ==>
        var (meta, data) := r.value;
        |data| == ChunkLength(manifest.fileSize, chunkIndex) && meta == ChunkPayload(chunkIndex, |data|)
      ensures Intact() && chunkIndex < manifest.totalChunks ==>
        var data := SourceChunk(file.contents, chunkIndex);
        r == Success((ChunkPayload(chunkIndex, |data|), data))
      ensures r == Failure(UnexpectedEof) ==> |file.contents| < manifest.fileSize
    {
      if chunkIndex >= manifest.totalChunks {
        return Failure(IndexOutOfBounds(chunkIndex));
      }
      var offset := chunkIndex * CHUNK_SIZE;
      file.Seek(offset);

      // The last chunk may be shorter.
      var expectedSize := CHUNK_SIZE;
      if chunkIndex == manifest.totalChunks - 1 {
        var remainder := manifest.fileSize % CHUNK_SIZE;
        if remainder > 0 {
          expectedSize := remainder;
        }
      }
      assert expectedSize == ChunkLength(manifest.fileSize, chunkIndex);

      var buffer := file.ReadExact(expectedSize);
      if buffer.None? {
        return Failure(UnexpectedEof);
      }
      r := Success((ChunkPayload(chunkIndex, expectedSize), buffer.value));
    }
  }
}
