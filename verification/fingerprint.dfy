/** The block loop of `plop_file`: one 32-byte buffer, reused across reads
    and never cleared, is decoded as eight little-endian words after every
    non-empty read and folded into a fresh accumulator; the first empty read
    ends the loop. The file itself is abstracted as the sequence of chunks
    its successive reads deliver. */
module FileFingerprint {
  import opened Words
  import opened Hex
  import opened Accumulator
  import opened Permutations

  /** What one `read` call delivers: between 0 and 32 bytes, written to the front of the buffer. */
  type Chunk = s: seq<U8> | |s| <= 32

  /** The buffer as `plop_file` allocates it. */
  const ZeroBlock: Block := [0, 0, 0, 0, 0, 0, 0, 0, 0, 0, 0, 0, 0, 0, 0, 0,
                             0, 0, 0, 0, 0, 0, 0, 0, 0, 0, 0, 0, 0, 0, 0, 0]

  /** The buffer after a read of `chunk`: the chunk's bytes at the front, the old bytes after them. */
  function Overwrite(buf: Block, chunk: Chunk): Block
  {
    seq(BlockSize, j requires 0 <= j < BlockSize => if j < |chunk| then chunk[j] else buf[j])
  }

  /** A read replaces exactly the first |chunk| bytes and keeps the rest. */
  lemma OverwriteBytes(buf: Block, chunk: Chunk)
    ensures forall j :: 0 <= j < |chunk| ==> Overwrite(buf, chunk)[j] == chunk[j]
    ensures forall j :: |chunk| <= j < BlockSize ==> Overwrite(buf, chunk)[j] == buf[j]
  {
  }

  /** Equivalently, the new buffer is the chunk followed by the old bytes past its end. */
  lemma OverwriteSplice(buf: Block, chunk: Chunk)
    ensures Overwrite(buf, chunk) == chunk + buf[|chunk|..]
  {
    OverwriteBytes(buf, chunk);
  }

  /** The buffer after the given reads, starting from the zeroed buffer. */
  function BufferAfter(chunks: seq<Chunk>): Block
  {
    if chunks == [] then ZeroBlock
    else Overwrite(BufferAfter(chunks[..|chunks| - 1]), chunks[|chunks| - 1])
  }

  /** How many reads come before the first empty one (all of them if none is empty). */
  function LeadingNonEmpty(chunks: seq<Chunk>): (n: nat)
    ensures n <= |chunks|
    ensures forall k :: 0 <= k < n ==> |chunks[k]| > 0
    ensures n < |chunks| ==> |chunks[n]| == 0
  {
    if chunks == [] || |chunks[0]| == 0 then 0 else 1 + LeadingNonEmpty(chunks[1..])
  }

  /** The reads the loop consumes and folds: those before the first empty read. */
  function Consumed(chunks: seq<Chunk>): seq<Chunk>
  {
    chunks[..LeadingNonEmpty(chunks)]
  }

  /** The block handed to `transform` after each of the given reads. */
  function Blocks(chunks: seq<Chunk>): (bs: seq<Lanes>)
    ensures |bs| == |chunks|
  {
    if chunks == [] then []
    else Blocks(chunks[..|chunks| - 1]) + [Decode(BufferAfter(chunks))]
  }

  /** The fingerprint `plop_file` prints for a file whose reads deliver `chunks`. */
  function Fingerprint(chunks: seq<Chunk>): string
  {
    Render(FoldBlocks(Seed, Blocks(Consumed(chunks))))
  }

  // ---- The loop ----

  /** `reader.read(&mut buffer)`: the chunk overwrites the front of the buffer; its length is returned. */
  method ReadInto(buffer: array<U8>, chunk: Chunk) returns (n: nat)
    requires buffer.Length == BlockSize
    modifies buffer
    ensures n == |chunk|
    ensures buffer[..] == Overwrite(old(buffer[..]), chunk)
  {
    for j := 0 to |chunk|
      invariant forall k :: 0 <= k < j ==> buffer[k] == chunk[k]
      invariant forall k :: j <= k < BlockSize ==> buffer[k] == old(buffer[k])
    {
      buffer[j] := chunk[j];
    }
    OverwriteBytes(old(buffer[..]), chunk);
    n := |chunk|;
  }

  /** The decoding loop: word i of the block is `u32::from_le_bytes` of buffer bytes 4i..4i+4. */
  method DecodeBlock(buffer: array<U8>) returns (data: Lanes)
    requires buffer.Length == BlockSize
    ensures data == Decode(buffer[..])
  {
    var d := new U32[HashSize](_ => 0);
    for i := 0 to HashSize
      invariant forall k :: 0 <= k < i ==> d[k] == Decode(buffer[..])[k]
    {
      d[i] := WordOfBytes(buffer[i * 4], buffer[i * 4 + 1], buffer[i * 4 + 2], buffer[i * 4 + 3]);
    }
    data := d[..];
  }

  /** The body of `plop_file` after the file is opened: reads until the first empty read,
      folding the whole buffer after every non-empty one, and renders the result.
      A read past the end of `chunks` returns no bytes, as a reader does at end of file.
      `folded` is the sequence of blocks handed to `transform`, in order. */
  method PlopFile(chunks: seq<Chunk>) returns (fingerprint: string, ghost folded: seq<Lanes>)
    ensures folded == Blocks(Consumed(chunks))
    ensures |folded| == LeadingNonEmpty(chunks)
    ensures fingerprint == Render(FoldBlocks(Seed, folded))
    ensures fingerprint == Fingerprint(chunks)
  {
    var hash := new Hash();
    var buffer := new U8[BlockSize](_ => 0);
    assert buffer[..] == ZeroBlock;
    var i := 0;
    while true
      invariant 0 <= i <= |chunks|
      invariant forall k :: 0 <= k < i ==> |chunks[k]| > 0
      invariant buffer[..] == BufferAfter(chunks[..i])
      invariant hash.Valid() && hash.Folded == Blocks(chunks[..i])
      decreases |chunks| - i
    {
      var chunk := if i < |chunks| then chunks[i] else [];
      var bytesRead := ReadInto(buffer, chunk);
      if bytesRead != 0 {
        assert |chunks[i]| > 0;
        BufferStep(chunks, i);
        BlocksStep(chunks, i);
        assert buffer[..] == BufferAfter(chunks[..i + 1]);
        var data := DecodeBlock(buffer);
        hash.Transform(data);
        // Restates the non-empty invariant for i + 1; it only keeps the solver's search short.
        assert forall k :: 0 <= k < i + 1 ==> |chunks[k]| > 0;
        i := i + 1;
      } else {
        assert i == LeadingNonEmpty(chunks);
        break;
      }
    }
    fingerprint := hash.ToString();
    folded := hash.Folded;
  }

  // ---- What the loop folds ----

  /** A file whose first read is empty never calls `transform` and prints the seed. */
  lemma EmptyFileFingerprint(chunks: seq<Chunk>)
    requires chunks == [] || chunks[0] == []
    ensures Blocks(Consumed(chunks)) == []
    ensures Fingerprint(chunks) == SeedHex
  {
    SeedRendering();
  }

  /** The k-th block handed to `transform` is the buffer as it stands after the k-th read. */
  lemma {:induction false} BlockIsBuffer(chunks: seq<Chunk>, k: nat)
    requires k < |chunks|
    ensures Blocks(chunks)[k] == Decode(BufferAfter(chunks[..k + 1]))
  {
    var n := |chunks|;
    var init := chunks[..n - 1];
    assert Blocks(chunks) == Blocks(init) + [Decode(BufferAfter(chunks))];
    if k < n - 1 {
      BlockIsBuffer(init, k);
      assert init[..k + 1] == chunks[..k + 1];
    } else {
      assert chunks[..k + 1] == chunks;
    }
  }

  /** Re-encoding the k-th block gives back the buffer bytes it was decoded from. */
  lemma BlockBytes(chunks: seq<Chunk>, k: nat)
    requires k < |chunks|
    ensures Encode(Blocks(chunks)[k]) == BufferAfter(chunks[..k + 1])
  {
    BlockIsBuffer(chunks, k);
    EncodeDecode(BufferAfter(chunks[..k + 1]));
  }

  /** The first block folded is the zeroed buffer with the first read written over its front. */
  lemma FirstReadBlock(chunks: seq<Chunk>)
    requires chunks != []
    ensures Blocks(chunks)[0] == Decode(Overwrite(ZeroBlock, chunks[0]))
  {
    BufferStep(chunks, 0);
    BlockIsBuffer(chunks, 0);
    assert chunks[..0] == [];
  }

  /** The stale-buffer behaviour: the block folded after read k + 1 is the bytes of block k with
      that read's bytes written over the front; after a short read of n bytes, positions n..31
      still hold block k's bytes. */
  lemma ShortReadKeepsStaleBytes(chunks: seq<Chunk>, k: nat)
    requires k + 1 < |chunks|
    ensures Blocks(chunks)[k + 1] == Decode(Overwrite(Encode(Blocks(chunks)[k]), chunks[k + 1]))
  {
    BlockBytes(chunks, k);
    BufferStep(chunks, k + 1);
    BlockIsBuffer(chunks, k + 1);
    RereadBlock(Blocks(chunks)[k], BufferAfter(chunks[..k + 1]), chunks[k + 1]);
  }

  /** Writing a chunk over a buffer that holds the bytes of a block `b` gives the same buffer as
      writing it over `b` re-encoded. */
  lemma RereadBlock(b: Lanes, prev: Block, c: Chunk)
    requires Encode(b) == prev
    ensures Decode(Overwrite(prev, c)) == Decode(Overwrite(Encode(b), c))
  {
  }

  lemma BlocksStep(chunks: seq<Chunk>, k: nat)
    requires k < |chunks|
    ensures Blocks(chunks[..k + 1]) == Blocks(chunks[..k]) + [Decode(BufferAfter(chunks[..k + 1]))]
  {
    assert chunks[..k + 1][..k] == chunks[..k];
  }

  lemma BufferStep(chunks: seq<Chunk>, k: nat)
    requires k < |chunks|
    ensures BufferAfter(chunks[..k + 1]) == Overwrite(BufferAfter(chunks[..k]), chunks[k])
  {
    assert chunks[..k + 1][..k] == chunks[..k];
    assert chunks[..k + 1][k] == chunks[k];
  }

  /** Each buffer byte holds the byte written there by the latest read long enough to reach it,
      or zero if no read has reached it. */
  lemma {:induction false} BufferLastWriter(chunks: seq<Chunk>, j: nat)
    requires j < BlockSize
    ensures (forall m :: 0 <= m < |chunks| ==> |chunks[m]| <= j) ==> BufferAfter(chunks)[j] == 0
    ensures forall m :: 0 <= m < |chunks| && j < |chunks[m]| &&
                        (forall m' :: m < m' < |chunks| ==> |chunks[m']| <= j)
                     ==> BufferAfter(chunks)[j] == chunks[m][j]
  {
    if chunks != [] {
      var n := |chunks|;
      var init := chunks[..n - 1];
      BufferLastWriter(init, j);
      OverwriteBytes(BufferAfter(init), chunks[n - 1]);
      forall m | 0 <= m < n && j < |chunks[m]| && (forall m' :: m < m' < n ==> |chunks[m']| <= j)
        ensures BufferAfter(chunks)[j] == chunks[m][j]
      {
        if m < n - 1 {
          assert init[m] == chunks[m];
          assert forall m' :: m < m' < n - 1 ==> |init[m']| <= j;
        }
      }
    }
  }

  // ---- Reordering whole blocks ----

  predicate AllFull(chunks: seq<Chunk>)
  {
    forall k :: 0 <= k < |chunks| ==> |chunks[k]| == BlockSize
  }

  /** With full 32-byte chunks there is nothing stale: every block is exactly what was read. */
  lemma {:induction false} FullReadsBlocks(chunks: seq<Chunk>)
    requires AllFull(chunks)
    ensures forall k :: 0 <= k < |chunks| ==> Blocks(chunks)[k] == Decode(chunks[k])
  {
    forall k | 0 <= k < |chunks|
      ensures Blocks(chunks)[k] == Decode(chunks[k])
    {
      BlockIsBuffer(chunks, k);
      assert chunks[..k + 1][k] == chunks[k];
    }
  }

  /** A file read as whole 32-byte blocks has the same fingerprint whatever order its blocks come in. */
  lemma ReorderFullBlocks(xs: seq<Chunk>, ys: seq<Chunk>)
    requires AllFull(xs)
    requires multiset(xs) == multiset(ys)
    ensures Fingerprint(xs) == Fingerprint(ys)
  {
    forall k | 0 <= k < |ys|
      ensures |ys[k]| == BlockSize
    {
      assert ys[k] in multiset(xs);
    }
    assert Consumed(xs) == xs && Consumed(ys) == ys;
    FullReadsBlocks(xs);
    FullReadsBlocks(ys);
    MappedPermutation(DecodeChunk, xs, ys, Blocks(xs), Blocks(ys));
    FoldBlocksPermutation(Seed, Blocks(xs), Blocks(ys));
  }

  /** A function applied element by element preserves permutations: if bx and bys are xs and ys
      mapped through f, and xs is a permutation of ys, then bx is a permutation of bys. */
  lemma {:induction false} MappedPermutation<A, B>(f: A -> B, xs: seq<A>, ys: seq<A>, bx: seq<B>, bys: seq<B>)
    requires |bx| == |xs| && forall k :: 0 <= k < |xs| ==> bx[k] == f(xs[k])
    requires |bys| == |ys| && forall k :: 0 <= k < |ys| ==> bys[k] == f(ys[k])
    requires multiset(xs) == multiset(ys)
    ensures multiset(bx) == multiset(bys)
    decreases |xs|
  {
    if xs == [] {
      assert |ys| == |multiset(ys)| == 0;
    } else {
      var n := |xs|;
      var j := PermutationSplit(xs, ys);
      var rest := Without(ys, j);
      var brest := Without(bys, j);
      assert forall k :: 0 <= k < |rest| ==> brest[k] == f(rest[k]);
      MappedPermutation(f, xs[..n - 1], rest, bx[..n - 1], brest);
      assert bx[n - 1] == bys[j];
      MultisetSnoc(bx);
    }
  }

  /** Decode for a chunk known to be a full block (the zeroed buffer otherwise). */
  function DecodeChunk(c: Chunk): Lanes
  {
    if |c| == BlockSize then Decode(c) else Decode(ZeroBlock)
  }
}
