/**
 * The check of one out-of-line value: its chunks are scanned in index order and
 * each is compared with where the scan should be.
 */
module ToastCheck {
  import opened CInt

  const TOAST_MAX_CHUNK_SIZE := 1996
  const TWO64 := TWO32 * TWO32

  /** The chunk's data: missing, with an ordinary or a short header, or with another header. */
  datatype Data = NullData | Plain(size: int) | Short(size: int) | BadHeader

  datatype Seq = NullSeq | Number(value: int)

  datatype Chunk = Chunk(sequence: Seq, data: Data)

  datatype Problem = NoSequence | OutOfOrder | NoData | InvalidHeader | PastLast | WrongSize | NotFound | EndsEarly

  /** Sequence numbers are 32-bit signed integers. */
  ghost predicate Stored(chunks: seq<Chunk>) {
    forall k :: 0 <= k < |chunks| && chunks[k].sequence.Number? ==> IsInt32(chunks[k].sequence.value)
  }

  /** The last sequence number; the subtraction is done on 32 bits. */
  function LastChunk(extsize: nat): nat
    requires extsize < TWO32
  {
    (extsize - 1) % TWO32 / TOAST_MAX_CHUNK_SIZE
  }

  /** The size the arithmetic sees: a stored size of zero counts as 2^32. */
  function Size(extsize: nat): nat {
    if extsize == 0 then TWO32 else extsize
  }

  /** The size chunk k of a value must have. */
  function ChunkSize(extsize: nat, k: nat): int
    requires extsize < TWO32
  {
    if k < LastChunk(extsize) then TOAST_MAX_CHUNK_SIZE else Size(extsize) - LastChunk(extsize) * TOAST_MAX_CHUNK_SIZE
  }

  lemma LastChunkFacts(extsize: nat)
    requires extsize < TWO32
    ensures LastChunk(extsize) == (Size(extsize) - 1) / TOAST_MAX_CHUNK_SIZE < TWO31 - 1
    ensures 0 < Size(extsize) - LastChunk(extsize) * TOAST_MAX_CHUNK_SIZE <= TOAST_MAX_CHUNK_SIZE
    ensures extsize < LastChunk(extsize) * TOAST_MAX_CHUNK_SIZE ==> extsize == 0
  {
  }

  predicate HasSize(data: Data, size: int) {
    (data.Plain? || data.Short?) && data.size == size
  }

  /** Chunk k is as the value requires. */
  predicate Canonical(c: Chunk, extsize: nat, k: nat)
    requires extsize < TWO32
  {
    c.sequence == Number(k) && k <= LastChunk(extsize) && HasSize(c.data, ChunkSize(extsize, k))
  }

  lemma CutTo32(d: int, r: nat)
    requires r < TWO31 && (d == r || d == r - TWO32)
    ensures ToInt32(d % TWO64) == r
  {
    if d < 0 {
      assert d % TWO64 == d + TWO64 && (d + TWO64) % TWO32 == d + TWO32;
    }
  }

  /** What is left for the last chunk, computed on 64 unsigned bits and then cut to 32 signed ones. */
  function Remainder(extsize: nat, last: nat): (r: int)
    requires extsize < TWO32 && last == LastChunk(extsize)
    ensures r == Size(extsize) - last * TOAST_MAX_CHUNK_SIZE
  {
    LastChunkFacts(extsize);
    CutTo32(extsize - last * TOAST_MAX_CHUNK_SIZE, Size(extsize) - last * TOAST_MAX_CHUNK_SIZE);
    ToInt32((extsize - last * TOAST_MAX_CHUNK_SIZE) % TWO64)
  }

  /** One chunk. */
  method CheckToastTuple(c: Chunk, expected: int, extsize: nat) returns (reports: seq<Problem>, expected': int)
    requires extsize < TWO32 && (c.sequence.Number? ==> IsInt32(c.sequence.value))
    ensures expected >= 0 ==> (reports == [] <==> Canonical(c, extsize, expected))
    ensures reports == [] ==> expected' == expected + 1
  {
    hide LastChunk, Size;
    reports, expected' := [], expected;
    var lastChunkSeq := LastChunk(extsize);
    LastChunkFacts(extsize);
    if c.sequence.NullSeq? {
      return [NoSequence], expected;
    }
    var chunkSeq := c.sequence.value;
    if chunkSeq != expected {
      reports := [OutOfOrder];
    }
    expected' := ToInt32(chunkSeq + 1);
    var chunksize;
    match c.data {
      case NullData => return reports + [NoData], expected';
      case Plain(size) => chunksize := size;
      case Short(size) => chunksize := size;
      case BadHeader => return reports + [InvalidHeader], expected';
    }
    if chunkSeq > lastChunkSeq {
      return reports + [PastLast], expected';
    }
    var expectedSize := if chunkSeq < lastChunkSeq then TOAST_MAX_CHUNK_SIZE else Remainder(extsize, lastChunkSeq);
    if chunksize != expectedSize {
      reports := reports + [WrongSize];
    }
  }

  /** The whole value: nothing is reported exactly when all chunks are there and canonical. */
  method CheckToastedAttribute(chunks: seq<Chunk>, extsize: nat) returns (reports: seq<Problem>)
    requires extsize < TWO32 && Stored(chunks)
    ensures reports == [] <==>
              |chunks| == LastChunk(extsize) + 1 && forall k :: 0 <= k < |chunks| ==> Canonical(chunks[k], extsize, k)
    ensures extsize >= 1 ==>
              (reports == [] <==>
                 && |chunks| == (extsize - 1) / 1996 + 1
                 && forall k :: 0 <= k < |chunks| ==>
                      && chunks[k].sequence == Number(k) && (chunks[k].data.Plain? || chunks[k].data.Short?)
                      && chunks[k].data.size == if k < |chunks| - 1 then 1996 else extsize - 1996 * (|chunks| - 1))
  {
    reports := [];
    var expected, found := 0, false;
    var lastChunkSeq := LastChunk(extsize);
    LastChunkFacts(extsize);
    for i := 0 to |chunks|
      invariant found == (i > 0)
      invariant reports == [] ==> expected == i
      invariant reports == [] <==> forall k :: 0 <= k < i ==> Canonical(chunks[k], extsize, k)
    {
      found := true;
      var more;
      more, expected := CheckToastTuple(chunks[i], expected, extsize);
      reports := reports + more;
    }
    assert reports == [] && |chunks| > 0 ==> Canonical(chunks[|chunks| - 1], extsize, |chunks| - 1);
    if !found {
      reports := reports + [NotFound];
    } else if expected <= lastChunkSeq {
      reports := reports + [EndsEarly];
    }
  }

  /** The bytes in the first n chunks. */
  function Total(chunks: seq<Chunk>, n: nat): int
    requires n <= |chunks|
  {
    if n == 0 then 0
    else
      var data := chunks[n - 1].data;
      Total(chunks, n - 1) + if data.Plain? || data.Short? then data.size else 0
  }

  lemma {:induction false} TotalBefore(chunks: seq<Chunk>, extsize: nat, n: nat)
    requires extsize < TWO32 && n <= |chunks| == LastChunk(extsize) + 1
    requires forall k :: 0 <= k < |chunks| ==> Canonical(chunks[k], extsize, k)
    ensures Total(chunks, n) == if n <= LastChunk(extsize) then n * TOAST_MAX_CHUNK_SIZE else Size(extsize)
  {
    LastChunkFacts(extsize);
    if n == 0 {
    } else {
      TotalBefore(chunks, extsize, n - 1);
      assert Canonical(chunks[n - 1], extsize, n - 1);
    }
  }

  /** The chunks of a value that passes hold exactly its stored size. */
  lemma SizesSum(chunks: seq<Chunk>, extsize: nat)
    requires 1 <= extsize < TWO32 && |chunks| == LastChunk(extsize) + 1
    requires forall k :: 0 <= k < |chunks| ==> Canonical(chunks[k], extsize, k)
    ensures Total(chunks, |chunks|) == extsize && |chunks| == (extsize - 1) / TOAST_MAX_CHUNK_SIZE + 1
  {
    LastChunkFacts(extsize);
    TotalBefore(chunks, extsize, |chunks|);
  }
}
