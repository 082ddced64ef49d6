/** File and chunk metadata: the chunk count, the byte range of each chunk, the encodings. */
module Manifest {
  import opened Wrappers
  import opened Bytes
  import opened Postcard

  const CHUNK_SIZE: u32 := 0x1_0000
  const MAX_CHUNKS: u32 := 0xFFFF_FFFF
  /** The largest file whose chunks a 32-bit index can number. */
  const MAX_FILE_SIZE := MAX_CHUNKS * CHUNK_SIZE

  type Hash = h: bytes | |h| == 32 witness Zeros(32)

  datatype FileManifest = FileManifest(
    transferId: Text, fileName: Text, fileSize: u64, chunkSize: u32, totalChunks: u32, rootHash: Hash)

  datatype ChunkPayload = ChunkPayload(chunkIndex: u32, payloadLength: u32)

  // ----- The chunk count -----

  /** The double nearest to `n`, ties to even: 53 significant bits, so at magnitude
      2^53 * ulp the doubles are the multiples of `2 * ulp`. */
  function RoundToDouble(n: nat, ulp: nat): (r: nat)
    requires ulp == 1 || n >= ulp >= 1
    ensures 2 * r >= n
    ensures ulp == 1 && n < 0x20_0000_0000_0000 ==> r == n
    decreases n - ulp
  {
    if n >= 0x20_0000_0000_0000 * ulp then RoundToDouble(n, 2 * ulp)
    else
      var q, rest := n / ulp, n % ulp;
      assert n == q * ulp + rest;
      assert q >= 1 || ulp == 1;
      assert q >= 1 ==> q * ulp >= ulp;
      if 2 * rest < ulp || (2 * rest == ulp && q % 2 == 0) then q * ulp else (q + 1) * ulp
  }

  function Ceil(x: real): int {
    -(-x).Floor
  }

  /** The float-to-integer cast saturates. */
  function SaturateU32(x: int): u32 {
    if x < 0 then 0 else if x > 0xFFFF_FFFF then 0xFFFF_FFFF else x
  }

  /** The chunk count as computed: through a double quotient, its ceiling and a saturating cast.
      Dividing a double by 2^16 is exact. */
  function ComputedChunks(fileSize: u64): u32 {
    SaturateU32(Ceil(RoundToDouble(fileSize, 1) as real / CHUNK_SIZE as real))
  }

  lemma CeilOfQuotient(n: nat)
    ensures Ceil(n as real / CHUNK_SIZE as real) == (n + CHUNK_SIZE - 1) / CHUNK_SIZE
  {
    var x := n as real / CHUNK_SIZE as real;
    var c := (n + CHUNK_SIZE - 1) / CHUNK_SIZE;
    assert n as real == x * CHUNK_SIZE as real;
    assert (c - 1) * CHUNK_SIZE < n <= c * CHUNK_SIZE;
    assert ((c - 1) * CHUNK_SIZE) as real == (c - 1) as real * CHUNK_SIZE as real;
    assert (c * CHUNK_SIZE) as real == c as real * CHUNK_SIZE as real;
    assert (c - 1) as real < x <= c as real;
  }

  /** The number of 64 KB chunks, cut off at the largest 32-bit index. */
  function TotalChunks(fileSize: u64): u32 {
    Min((fileSize + CHUNK_SIZE - 1) / CHUNK_SIZE, MAX_CHUNKS)
  }

  /** For every 64-bit size the floating-point computation is the integer ceiling, cut off at
      the largest index: rounding to a double never changes the count. */
  lemma TotalChunksIsCeiling(fileSize: u64)
    ensures ComputedChunks(fileSize) == TotalChunks(fileSize)
    ensures var k := ComputedChunks(fileSize);
            if fileSize <= 0xFFFF_FFFF * 65536 then 65536 * (k - 1) < fileSize <= 65536 * k else k == 0xFFFF_FFFF
  {
    CeilOfQuotient(RoundToDouble(fileSize, 1));
  }

  function NewManifest(transferId: Text, fileName: Text, fileSize: u64, rootHash: Hash): FileManifest {
    FileManifest(transferId, fileName, fileSize, CHUNK_SIZE, ComputedChunks(fileSize), rootHash)
  }

  // ----- The partition into chunks -----

  /** Length of chunk `i` of a file of `n` bytes: whole, except that the last one holds the
      remainder when there is one. */
  function ChunkLength(n: u64, i: nat): (r: nat)
    requires i < TotalChunks(n)
    ensures 0 < r <= CHUNK_SIZE && i * CHUNK_SIZE + r <= n
  {
    if i == TotalChunks(n) - 1 && n % CHUNK_SIZE > 0 then n % CHUNK_SIZE else CHUNK_SIZE
  }

  /** A source file: its length is a 64-bit number. */
  type Source = s: bytes | |s| < U64_LIMIT

  function SourceChunk(source: Source, i: nat): (r: bytes)
    requires i < TotalChunks(|source|)
    ensures 0 < |r| <= CHUNK_SIZE
  {
    source[i * CHUNK_SIZE..i * CHUNK_SIZE + ChunkLength(|source|, i)]
  }

  /** How many bytes the first `k` chunks hold. */
  function Covered(n: u64, k: nat): (r: nat)
    requires k <= TotalChunks(n)
    ensures r <= n
  {
    if k == 0 then 0 else (k - 1) * CHUNK_SIZE + ChunkLength(n, k - 1)
  }

  function Concat(parts: seq<bytes>): bytes {
    if parts == [] then [] else parts[0] + Concat(parts[1..])
  }

  lemma {:induction false} ConcatSnoc(parts: seq<bytes>, last: bytes)
    ensures Concat(parts + [last]) == Concat(parts) + last
  {
    if parts == [] {
      assert parts + [last] == [last];
      assert Concat([last]) == last;
    } else {
      assert (parts + [last])[1..] == parts[1..] + [last];
      ConcatSnoc(parts[1..], last);
    }
  }

  function ChunksUpTo(source: Source, k: nat): (r: seq<bytes>)
    requires k <= TotalChunks(|source|)
    ensures |r| == k
  {
    seq(k, i requires 0 <= i < k => SourceChunk(source, i))
  }

  /** The ranges are contiguous and start at zero: the first k chunks are a prefix of the file. */
  lemma {:induction false} ChunksArePrefix(source: Source, k: nat)
    requires k <= TotalChunks(|source|)
    ensures Concat(ChunksUpTo(source, k)) == source[..Covered(|source|, k)]
  {
    if k > 0 {
      ChunksArePrefix(source, k - 1);
      assert ChunksUpTo(source, k) == ChunksUpTo(source, k - 1) + [SourceChunk(source, k - 1)];
      ConcatSnoc(ChunksUpTo(source, k - 1), SourceChunk(source, k - 1));
      assert Covered(|source|, k - 1) == (k - 1) * CHUNK_SIZE;
    }
  }

  /** The chunks cover the file if and only if its size is within the 32-bit index range;
      above it the count saturates and a tail is in no chunk. */
  lemma CoversIff(n: u64)
    ensures Covered(n, TotalChunks(n)) == n <==> n <= 0xFFFF_FFFF * 65536
    ensures n > MAX_FILE_SIZE ==> Covered(n, TotalChunks(n)) <= 0xFFFF_FFFF * 65536
  {
  }

  /** One byte above the bound: 65536 bytes are in no chunk. */
  lemma OneByteAboveTheBound()
    ensures ComputedChunks(0xFFFF_FFFF * 65536) == ComputedChunks(0xFFFF_FFFF * 65536 + 1) == 0xFFFF_FFFF
    ensures Covered(MAX_FILE_SIZE + 1, TotalChunks(MAX_FILE_SIZE + 1)) == MAX_FILE_SIZE + 1 - 65536
  {
    TotalChunksIsCeiling(MAX_FILE_SIZE);
    TotalChunksIsCeiling(MAX_FILE_SIZE + 1);
  }

  /** Within the bound, chunk `i` is the file from i * 65536 to the next multiple or the end. */
  lemma ChunkRange(source: Source, i: nat)
    requires |source| <= MAX_FILE_SIZE && i < TotalChunks(|source|)
    ensures SourceChunk(source, i) == source[i * 65536..Min((i + 1) * 65536, |source|)]
  {
  }

  // ----- Encodings -----

  function ManifestToBytes(m: FileManifest): bytes {
    PutText(m.transferId) + (PutText(m.fileName) + (PutVarint(m.fileSize)
      + (PutVarint(m.chunkSize) + (PutVarint(m.totalChunks) + m.rootHash))))
  }

  function ManifestFromBytes(b: bytes): Option<FileManifest> {
    var (transferId, b) :- TakeText(b);
    var (fileName, b) :- TakeText(b);
    var (fileSize, b) :- TakeVarint(b, U64_LIMIT);
    var (chunkSize, b) :- TakeVarint(b, U32_LIMIT);
    var (totalChunks, b) :- TakeVarint(b, U32_LIMIT);
    if |b| < 32 then None
    else Some(FileManifest(transferId, fileName, fileSize, chunkSize, totalChunks, b[..32]))
  }

  function ChunkPayloadToBytes(c: ChunkPayload): bytes {
    PutVarint(c.chunkIndex) + PutVarint(c.payloadLength)
  }

  function ChunkPayloadFromBytes(b: bytes): Option<ChunkPayload> {
    var (chunkIndex, b) :- TakeVarint(b, U32_LIMIT);
    var (payloadLength, b) :- TakeVarint(b, U32_LIMIT);
    Some(ChunkPayload(chunkIndex, payloadLength))
  }

  lemma ManifestRoundTrip(m: FileManifest, tail: bytes)
    ensures ManifestFromBytes(ManifestToBytes(m) + tail) == Some(m)
  {
    WordLimits();
    var hash := m.rootHash + tail;
    var total := PutVarint(m.totalChunks) + hash;
    var chunk := PutVarint(m.chunkSize) + total;
    var size := PutVarint(m.fileSize) + chunk;
    var name := PutText(m.fileName) + size;
    assert ManifestToBytes(m) + tail == PutText(m.transferId) + name;
    TextRoundTrip(m.transferId, name);
    TextRoundTrip(m.fileName, size);
    VarintRoundTrip(m.fileSize, U64_LIMIT, chunk);
    VarintRoundTrip(m.chunkSize, U32_LIMIT, total);
    VarintRoundTrip(m.totalChunks, U32_LIMIT, hash);
    assert hash[..32] == m.rootHash;
  }

  lemma ChunkPayloadRoundTrip(c: ChunkPayload, tail: bytes)
    ensures ChunkPayloadFromBytes(ChunkPayloadToBytes(c) + tail) == Some(c)
    ensures |ChunkPayloadToBytes(c)| <= 10
  {
    WordLimits();
    VarintSize(c.chunkIndex);
    VarintSize(c.payloadLength);
    var rest := PutVarint(c.payloadLength) + tail;
    assert ChunkPayloadToBytes(c) + tail == PutVarint(c.chunkIndex) + rest;
    VarintRoundTrip(c.chunkIndex, U32_LIMIT, rest);
    VarintRoundTrip(c.payloadLength, U32_LIMIT, tail);
  }

  lemma VarintExamples()
    ensures PutVarint(300) == [0xAC, 0x02] && PutVarint(65536) == [0x80, 0x80, 0x04]
    ensures PutVarint(8000) == [0xC0, 0x3E] && PutVarint(524288000) == [0x80, 0x80, 0x80, 0xFA, 0x01]
  {
    assert PutVarint(65536) == [0x80] + ([0x80] + [0x04]);
    assert PutVarint(524288000) == [0x80] + ([0x80] + ([0x80] + ([0xFA] + [0x01])));
  }

  /** The encodings byte by byte, on one record of each kind. */
  lemma EncodedExamples(m: FileManifest)
    requires m.fileSize == 524288000 && m.chunkSize == 65536 && m.totalChunks == 8000
    requires |m.transferId| < 0x80 && |m.fileName| < 0x80
    ensures ManifestToBytes(m) == [|m.transferId|] + m.transferId + [|m.fileName|] + m.fileName
              + [0x80, 0x80, 0x80, 0xFA, 0x01, 0x80, 0x80, 0x04, 0xC0, 0x3E] + m.rootHash
    ensures ChunkPayloadToBytes(ChunkPayload(300, 65536)) == [0xAC, 0x02, 0x80, 0x80, 0x04]
  {
    VarintExamples();
    assert PutText(m.transferId) == [|m.transferId|] + m.transferId;
    assert PutText(m.fileName) == [|m.fileName|] + m.fileName;
    hide PutVarint, PutText;
  }
}
