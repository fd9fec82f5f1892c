/** The checks on the chunks of a toasted value (contrib/amcheck/verify_heapam.c). */
module HeapToast {
  import opened Wrappers
  import opened Machine

  /** TOAST_MAX_CHUNK_SIZE for 8 kB pages: a quarter of a page, less the overheads of a toast tuple. */
  const MAX_CHUNK: nat := 1996

  /** The data column of a toast tuple: null, a plain or short varlena of some size, or something else. */
  datatype Data = NullData | Bytes(size: nat) | BadHeader

  datatype Chunk = Chunk(number: Option<int>, data: Data)

  /** The number of the last chunk of a value of this external size, in unsigned 32-bit arithmetic. */
  function LastChunk(extsize: nat): nat { (extsize - 1) % TWO_32 / MAX_CHUNK }

  /** The size chunk `i` should have. */
  function ExpectedSize(extsize: nat, i: int): int {
    if i < LastChunk(extsize) then MAX_CHUNK else ToInt32(extsize - LastChunk(extsize) * MAX_CHUNK)
  }

  /** check_toast_tuple: the number of reports, and the chunk number expected next. */
  method CheckToastTuple(chunk: Chunk, expected: int, extsize: nat) returns (reports: nat, next: int)
    requires extsize < TWO_32
    ensures reports == 0 <==> expected <= LastChunk(extsize) && IsChunk(chunk, extsize, expected)
    ensures next == if chunk.number.None? then expected else ToInt32(chunk.number.value + 1)
  {
    reports, next := 0, expected;
    if chunk.number.None? { return 1, expected; }
    var seqno := chunk.number.value;
    if seqno != expected { reports := reports + 1; }
    next := ToInt32(seqno + 1);
    if !chunk.data.Bytes? { return reports + 1, next; }
    if seqno > LastChunk(extsize) { return reports + 1, next; }
    if chunk.data.size != ExpectedSize(extsize, seqno) { reports := reports + 1; }
  }

  /** The first `n` chunks are numbers 0 to n - 1 with the sizes they should have. */
  ghost predicate InSequence(chunks: seq<Chunk>, extsize: nat, n: nat)
    requires n <= |chunks|
  {
    forall i: nat | i < n :: i <= LastChunk(extsize) && IsChunk(chunks[i], extsize, i)
  }

  predicate IsChunk(c: Chunk, extsize: nat, i: int) {
    c.number == Some(i) && c.data.Bytes? && c.data.size == ExpectedSize(extsize, i)
  }

  /** check_toasted_attribute: silent exactly on the complete sequence of chunks. */
  method CheckToastedAttribute(chunks: seq<Chunk>, extsize: nat) returns (reports: nat)
    requires extsize < TWO_32
    ensures reports == 0 <==> InSequence(chunks, extsize, |chunks|) && |chunks| == LastChunk(extsize) + 1
  {
    hide LastChunk, ExpectedSize, ToInt32;
    LastSmall(extsize);
    reports := 0;
    var expected := 0;
    var found := false;
    var k := 0;
    while k < |chunks|
      invariant 0 <= k <= |chunks| && (found <==> k > 0)
      invariant reports == 0 <==> InSequence(chunks, extsize, k)
      invariant reports == 0 ==> expected == k <= LastChunk(extsize) + 1
    {
      found := true;
      var r, next := CheckToastTuple(chunks[k], expected, extsize);
      reports, expected := reports + r, next;
      SmallNext(k, extsize);
      k := k + 1;
    }
    if !found {
      reports := reports + 1;
    } else if expected <= LastChunk(extsize) {
      reports := reports + 1;
    }
  }

  lemma LastSmall(extsize: nat)
    requires extsize < TWO_32
    ensures LastChunk(extsize) < TWO_31 - 1
  {
  }

  lemma SmallNext(k: nat, extsize: nat)
    requires extsize < TWO_32
    ensures k <= LastChunk(extsize) ==> ToInt32(k + 1) == k + 1
  {
  }

  // ---------------------------------------------------------------- what a silent check means

  ghost function TotalSize(chunks: seq<Chunk>, n: nat): nat
    requires n <= |chunks|
  {
    if n == 0 then 0
    else TotalSize(chunks, n - 1) + if chunks[n - 1].data.Bytes? then chunks[n - 1].data.size else 0
  }

  lemma {:induction false} FullChunks(chunks: seq<Chunk>, extsize: nat, n: nat)
    requires 0 < extsize < TWO_32 && n <= |chunks| && InSequence(chunks, extsize, |chunks|) && n <= LastChunk(extsize)
    ensures TotalSize(chunks, n) == n * MAX_CHUNK
  {
    if n > 0 {
      FullChunks(chunks, extsize, n - 1);
      assert IsChunk(chunks[n - 1], extsize, n - 1);
    }
  }

  /** The chunks of a value that passes hold exactly its external size, and each of them some of it. */
  lemma SilentMeansComplete(chunks: seq<Chunk>, extsize: nat)
    requires 0 < extsize < TWO_32 && InSequence(chunks, extsize, |chunks|) && |chunks| == LastChunk(extsize) + 1
    ensures TotalSize(chunks, |chunks|) == extsize
    ensures forall i: nat | i < |chunks| :: 1 <= ExpectedSize(extsize, i) <= MAX_CHUNK
  {
    var last := LastChunk(extsize);
    FullChunks(chunks, extsize, last);
    assert IsChunk(chunks[last], extsize, last);
  }

  /** Conversely, cutting any value into chunks of full size and a rest passes. */
  lemma CutPasses(extsize: nat, chunks: seq<Chunk>)
    requires 0 < extsize < TWO_32 && |chunks| > 0 && TotalSize(chunks, |chunks|) == extsize
    requires forall i: nat | i < |chunks| :: chunks[i].number == Some(i) && chunks[i].data.Bytes?
    requires forall i: nat | i + 1 < |chunks| :: chunks[i].data.size == MAX_CHUNK
    requires 1 <= chunks[|chunks| - 1].data.size <= MAX_CHUNK
    ensures InSequence(chunks, extsize, |chunks|) && |chunks| == LastChunk(extsize) + 1
  {
    var last := |chunks| - 1;
    FullPrefix(chunks, last);
    var rest := chunks[last].data.size;
    assert extsize - 1 == last * MAX_CHUNK + (rest - 1);
    Quotient(extsize - 1, last, rest - 1);
  }

  lemma {:induction false} FullPrefix(chunks: seq<Chunk>, n: nat)
    requires n < |chunks|
    requires forall i: nat | i + 1 < |chunks| :: chunks[i].data.Bytes? && chunks[i].data.size == MAX_CHUNK
    ensures TotalSize(chunks, n) == n * MAX_CHUNK
  {
    if n > 0 { FullPrefix(chunks, n - 1); }
  }

  lemma Quotient(x: nat, q: nat, r: nat)
    requires x == q * MAX_CHUNK + r && r < MAX_CHUNK
    ensures x / MAX_CHUNK == q
  {
  }
}
