/** The check that a value stored out of line is complete: its chunks are read in order
    and compared with what the external size makes one expect. */
module HeapToast {
  import opened MachineWords
  import opened Optional

  const MAX_CHUNK: int := 1996

  /** The stored bytes of a chunk, or a header that makes no sense. */
  datatype ChunkData = Plain(size: int) | BadHeader

  /** A row of the TOAST table; either column may be null. */
  datatype Chunk = Chunk(seqno: Option<int>, data: Option<ChunkData>)

  /** The number of the last chunk; the subtraction is done in 32 bits. */
  function LastSeq(extsize: int): int { (extsize - 1) % TWO_32 / MAX_CHUNK }

  function ExpectedSize(extsize: int, i: int): int {
    if i < LastSeq(extsize) then MAX_CHUNK else extsize - LastSeq(extsize) * MAX_CHUNK
  }

  /** The chunk is number `i` and holds what number `i` should. */
  predicate Right(extsize: int, c: Chunk, i: int) {
    c.seqno == Some(i) && c.data == Some(Plain(ExpectedSize(extsize, i)))
  }

  /** The chunks are those of a value of the given size, complete and in order. */
  predicate Whole(extsize: int, cs: seq<Chunk>) {
    |cs| == LastSeq(extsize) + 1 && forall i :: 0 <= i < |cs| ==> Right(extsize, cs[i], i)
  }

  /** `check_toast_tuple`: returns the number of reports made and the sequence number to
      expect next. */
  method CheckChunk(extsize: int, c: Chunk, expected: int) returns (reports: nat, next: int)
    ensures reports == 0 <==> Right(extsize, c, expected) && expected <= LastSeq(extsize)
    ensures reports == 0 ==> next == expected + 1
  {
    reports, next := 0, expected;
    var last := LastSeq(extsize);
    if c.seqno.None? {
      return 1, next;
    }
    var i := c.seqno.value;
    if i != expected {
      reports := reports + 1;
    }
    next := i + 1;
    if c.data.None? || c.data.value.BadHeader? {
      return reports + 1, next;
    }
    if i > last {
      return reports + 1, next;
    }
    var size := if i < last then MAX_CHUNK else extsize - last * MAX_CHUNK;
    if c.data.value.size != size {
      reports := reports + 1;
    }
  }

  /** `check_toasted_attribute` reports nothing exactly when the chunks are right. */
  method CheckAttribute(extsize: int, cs: seq<Chunk>) returns (reports: nat)
    ensures reports == 0 <==> Whole(extsize, cs)
  {
    var expected := 0;
    reports := 0;
    for k := 0 to |cs|
      invariant reports == 0 ==> expected == k && k <= LastSeq(extsize) + 1
      invariant reports == 0 <==> forall i :: 0 <= i < k ==> Right(extsize, cs[i], i) && i <= LastSeq(extsize)
    {
      var r;
      r, expected := CheckChunk(extsize, cs[k], expected);
      reports := reports + r;
    }
    if cs == [] {
      reports := reports + 1;
    } else if expected <= LastSeq(extsize) {
      reports := reports + 1;
    }
  }

  lemma LastIsPartial(extsize: int)
    requires 0 < extsize < TWO_32
    ensures 1 <= extsize - LastSeq(extsize) * MAX_CHUNK <= MAX_CHUNK
  {
  }

  function ChunkSize(c: Chunk): int { if c.data.Some? && c.data.value.Plain? then c.data.value.size else 0 }

  function Total(cs: seq<Chunk>, k: nat): int
    requires k <= |cs|
  {
    if k == 0 then 0 else Total(cs, k - 1) + ChunkSize(cs[k - 1])
  }

  lemma {:induction false} FullChunks(extsize: int, cs: seq<Chunk>, k: nat)
    requires Whole(extsize, cs) && k < |cs|
    ensures Total(cs, k) == k * MAX_CHUNK
  {
    if k == 0 {
    } else {
      FullChunks(extsize, cs, k - 1);
      assert Right(extsize, cs[k - 1], k - 1);
    }
  }

  /** A silent check means that the chunks add up to the external size. */
  lemma WholeAddsUp(extsize: int, cs: seq<Chunk>)
    requires 0 < extsize < TWO_32 && Whole(extsize, cs)
    ensures Total(cs, |cs|) == extsize
  {
    LastIsPartial(extsize);
    FullChunks(extsize, cs, |cs| - 1);
    assert Right(extsize, cs[|cs| - 1], |cs| - 1);
  }
}
