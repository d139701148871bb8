/** Page-range arithmetic of the chunked submitter: how a document of
    `numPages` pages is cut into chunks of at most `chunkSize` pages.
    Chunk `i` covers the inclusive page range
    [ChunkStart(i), ChunkEnd(i)]; page numbers are 0-based. */
module PageRanges {

  /** Python's built-in `min` on two integers. */
  function Min(a: int, b: int): int {
    if a <= b then a else b
  }

  /** Number of chunks: `(num_pages + chunk_size - 1) // chunk_size`.
      Both operands are non-negative here, so Python's floor division and
      Dafny's Euclidean division agree. */
  function NumChunks(numPages: nat, chunkSize: nat): nat
    requires chunkSize >= 1
  {
    (numPages + chunkSize - 1) / chunkSize
  }

  /** First page of chunk `i`. */
  function ChunkStart(i: nat, chunkSize: nat): nat {
    i * chunkSize
  }

  /** Last page (inclusive) of chunk `i`; it is -1 for an empty document,
      which never has a chunk. */
  function ChunkEnd(i: nat, numPages: nat, chunkSize: nat): int {
    Min((i + 1) * chunkSize - 1, numPages - 1)
  }

  /** The chunk count is the ceiling of numPages / chunkSize: enough chunks
      of chunkSize pages to hold every page, and one fewer would not be. */
  lemma NumChunksIsCeiling(numPages: nat, chunkSize: nat)
    requires chunkSize >= 1
    ensures NumChunks(numPages, chunkSize) * chunkSize >= numPages
    ensures (NumChunks(numPages, chunkSize) - 1) * chunkSize < numPages
  {
    var q, r := NumChunks(numPages, chunkSize), (numPages + chunkSize - 1) % chunkSize;
    assert numPages + chunkSize - 1 == q * chunkSize + r;
    assert (q - 1) * chunkSize == q * chunkSize - chunkSize;
  }

  /** No smaller number of chunks of chunkSize pages can hold the document. */
  lemma NumChunksIsLeast(numPages: nat, chunkSize: nat, k: nat)
    requires chunkSize >= 1
    requires k * chunkSize >= numPages
    ensures NumChunks(numPages, chunkSize) <= k
  {
    NumChunksIsCeiling(numPages, chunkSize);
    var q := NumChunks(numPages, chunkSize);
    if q > k {
      MulMonotone(k, q - 1, chunkSize);
      assert false;
    }
  }

  /** An empty document has no chunks, and a non-empty one has at least one. */
  lemma NoChunksIffEmpty(numPages: nat, chunkSize: nat)
    requires chunkSize >= 1
    ensures NumChunks(numPages, chunkSize) == 0 <==> numPages == 0
  {
    NumChunksIsCeiling(numPages, chunkSize);
  }

  lemma MulMonotone(a: nat, b: nat, c: nat)
    requires a <= b
    ensures a * c <= b * c
  {
    assert b * c == a * c + (b - a) * c;
  }

  /** Every chunk index below the chunk count gives an in-range, non-empty
      page range of at most chunkSize pages. */
  lemma ChunkBounds(numPages: nat, chunkSize: nat, i: nat)
    requires chunkSize >= 1
    requires i < NumChunks(numPages, chunkSize)
    ensures 0 <= ChunkStart(i, chunkSize) <= ChunkEnd(i, numPages, chunkSize) <= numPages - 1
    ensures 1 <= ChunkEnd(i, numPages, chunkSize) - ChunkStart(i, chunkSize) + 1 <= chunkSize
  {
    NumChunksIsCeiling(numPages, chunkSize);
    MulMonotone(i, NumChunks(numPages, chunkSize) - 1, chunkSize);
    assert (i + 1) * chunkSize == i * chunkSize + chunkSize;
  }

  /** Each later chunk starts right after the previous one ends. */
  lemma ChunksContiguous(numPages: nat, chunkSize: nat, i: nat)
    requires chunkSize >= 1
    requires i + 1 < NumChunks(numPages, chunkSize)
    ensures ChunkStart(i + 1, chunkSize) == ChunkEnd(i, numPages, chunkSize) + 1
  {
    ChunkBounds(numPages, chunkSize, i + 1);
  }

  /** The first chunk starts at page 0 and the last ends at the last page. */
  lemma ChunksSpanDocument(numPages: nat, chunkSize: nat)
    requires chunkSize >= 1
    requires numPages >= 1
    ensures NumChunks(numPages, chunkSize) >= 1
    ensures ChunkStart(0, chunkSize) == 0
    ensures ChunkEnd(NumChunks(numPages, chunkSize) - 1, numPages, chunkSize) == numPages - 1
  {
    NumChunksIsCeiling(numPages, chunkSize);
    NoChunksIffEmpty(numPages, chunkSize);
  }

  /** Every page lies in exactly one chunk, namely chunk page / chunkSize. */
  lemma PageInExactlyOneChunk(numPages: nat, chunkSize: nat, page: nat)
    requires chunkSize >= 1
    requires page < numPages
    ensures page / chunkSize < NumChunks(numPages, chunkSize)
    ensures ChunkStart(page / chunkSize, chunkSize) <= page <= ChunkEnd(page / chunkSize, numPages, chunkSize)
    ensures forall j: nat ::
      (j < NumChunks(numPages, chunkSize) &&
       ChunkStart(j, chunkSize) <= page <= ChunkEnd(j, numPages, chunkSize)) ==> j == page / chunkSize
  {
    var q, r := page / chunkSize, page % chunkSize;
    assert page == q * chunkSize + r;
    assert (q + 1) * chunkSize == q * chunkSize + chunkSize;
    NumChunksIsCeiling(numPages, chunkSize);
    if NumChunks(numPages, chunkSize) <= q {
      MulMonotone(NumChunks(numPages, chunkSize), q, chunkSize);
      assert false;
    }
    forall j: nat | j < NumChunks(numPages, chunkSize) &&
      ChunkStart(j, chunkSize) <= page <= ChunkEnd(j, numPages, chunkSize)
      ensures j == q
    {
      assert (j + 1) * chunkSize == j * chunkSize + chunkSize;
      if j < q {
        MulMonotone(j + 1, q, chunkSize);
      } else if j > q {
        MulMonotone(q + 1, j, chunkSize);
      }
    }
  }

  /** The pages of chunk `i`, copied in ascending order and unchanged. */
  function ChunkPages<P>(pages: seq<P>, chunkSize: nat, i: nat): seq<P>
    requires chunkSize >= 1
    requires i < NumChunks(|pages|, chunkSize)
  {
    ChunkBounds(|pages|, chunkSize, i);
    pages[ChunkStart(i, chunkSize)..ChunkEnd(i, |pages|, chunkSize) + 1]
  }

  /** The chunks numbered `i` and above, in ascending order. */
  function ChunksFrom<P>(pages: seq<P>, chunkSize: nat, i: nat): seq<seq<P>>
    requires chunkSize >= 1
    requires i <= NumChunks(|pages|, chunkSize)
    decreases NumChunks(|pages|, chunkSize) - i
  {
    if i == NumChunks(|pages|, chunkSize) then []
    else [ChunkPages(pages, chunkSize, i)] + ChunksFrom(pages, chunkSize, i + 1)
  }

  /** All chunks of a document, in the order the submitter sends them. */
  function Chunks<P>(pages: seq<P>, chunkSize: nat): seq<seq<P>>
    requires chunkSize >= 1
  {
    ChunksFrom(pages, chunkSize, 0)
  }

  /** Concatenation of a sequence of sequences. */
  function Flatten<P>(ss: seq<seq<P>>): seq<P> {
    if ss == [] then [] else ss[0] + Flatten(ss[1..])
  }

  lemma {:induction false} ChunksFromShape<P>(pages: seq<P>, chunkSize: nat, i: nat)
    requires chunkSize >= 1
    requires i <= NumChunks(|pages|, chunkSize)
    ensures |ChunksFrom(pages, chunkSize, i)| == NumChunks(|pages|, chunkSize) - i
    ensures forall j :: 0 <= j < |ChunksFrom(pages, chunkSize, i)| ==>
      ChunksFrom(pages, chunkSize, i)[j] == ChunkPages(pages, chunkSize, i + j)
    decreases NumChunks(|pages|, chunkSize) - i
  {
    if i < NumChunks(|pages|, chunkSize) {
      ChunksFromShape(pages, chunkSize, i + 1);
    }
  }

  /** There are NumChunks chunks; chunk `j` holds exactly the pages of its
      range, and between 1 and chunkSize of them. */
  lemma ChunksShape<P>(pages: seq<P>, chunkSize: nat)
    requires chunkSize >= 1
    ensures |Chunks(pages, chunkSize)| == NumChunks(|pages|, chunkSize)
    ensures forall j :: 0 <= j < |Chunks(pages, chunkSize)| ==>
      Chunks(pages, chunkSize)[j] == ChunkPages(pages, chunkSize, j)
    ensures forall j :: 0 <= j < |Chunks(pages, chunkSize)| ==>
      1 <= |Chunks(pages, chunkSize)[j]| <= chunkSize
  {
    ChunksFromShape(pages, chunkSize, 0);
    forall j | 0 <= j < |Chunks(pages, chunkSize)|
      ensures 1 <= |Chunks(pages, chunkSize)[j]| <= chunkSize
    {
      ChunkBounds(|pages|, chunkSize, j);
    }
  }

  /** Chunk `i` of the document holds exactly the pages of its range. */
  lemma ChunkAt<P>(pages: seq<P>, chunkSize: nat, i: nat)
    requires chunkSize >= 1
    requires i < NumChunks(|pages|, chunkSize)
    ensures |Chunks(pages, chunkSize)| == NumChunks(|pages|, chunkSize)
    ensures 0 <= ChunkStart(i, chunkSize) <= ChunkEnd(i, |pages|, chunkSize) < |pages|
    ensures Chunks(pages, chunkSize)[i] == ChunkPages(pages, chunkSize, i)
  {
    ChunksShape(pages, chunkSize);
    ChunkBounds(|pages|, chunkSize, i);
  }

  lemma {:induction false} FlattenChunksFrom<P>(pages: seq<P>, chunkSize: nat, i: nat)
    requires chunkSize >= 1
    requires i <= NumChunks(|pages|, chunkSize)
    ensures Flatten(ChunksFrom(pages, chunkSize, i)) == pages[Min(i * chunkSize, |pages|)..]
    decreases NumChunks(|pages|, chunkSize) - i
  {
    var n := |pages|;
    if i == NumChunks(n, chunkSize) {
      NumChunksIsCeiling(n, chunkSize);
    } else {
      ChunkBounds(n, chunkSize, i);
      FlattenChunksFrom(pages, chunkSize, i + 1);
      var rest := ChunksFrom(pages, chunkSize, i + 1);
      var s, e := i * chunkSize, ChunkEnd(i, n, chunkSize) + 1;
      assert e == Min((i + 1) * chunkSize, n);
      assert ([ChunkPages(pages, chunkSize, i)] + rest)[1..] == rest;
      assert pages[s..e] + pages[e..] == pages[s..];
    }
  }

  /** Concatenating the chunks in order gives back the whole document:
      every page once, in its original position. */
  lemma ChunksPartitionDocument<P>(pages: seq<P>, chunkSize: nat)
    requires chunkSize >= 1
    ensures Flatten(Chunks(pages, chunkSize)) == pages
  {
    FlattenChunksFrom(pages, chunkSize, 0);
  }
}
