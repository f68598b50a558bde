/**
 * `Chunk` of src/model/chunk.rs: the byte range [start_idx, last_idx) of one chunk of the
 * original file, with its bytes and a flag saying whether it is missing from the modified file.
 */
module Chunks {
  import opened Types
  import Changes

  datatype Chunk = Chunk(lastIdx: nat, startIdx: nat, isMissing: bool, missingBytes: seq<u8>)

  /** `Chunk::new(cur_idx, c_size, bytes, is_missing)`: the range of chunk `cur_idx` of size
      `c_size`; the flag and the bytes are stored as given. */
  function New(curIdx: nat, cSize: nat, bytes: seq<u8>, isMissing: bool): (r: Chunk)
    ensures r.startIdx == curIdx * cSize
    ensures r.lastIdx - r.startIdx == cSize
    ensures r.isMissing == isMissing && r.missingBytes == bytes
  {
    Chunk(curIdx * cSize + cSize, curIdx * cSize, isMissing, bytes)
  }

  /** `PartialEq::eq`: field by field. */
  function Eq(a: Chunk, b: Chunk): (r: bool)
    ensures r <==> a == b
  {
    a.lastIdx == b.lastIdx && a.startIdx == b.startIdx && a.isMissing == b.isMissing && a.missingBytes == b.missingBytes
  }

  /** `Clone::clone`: field by field. */
  function Clone(c: Chunk): (r: Chunk)
    ensures Eq(r, c)
  {
    Chunk(c.lastIdx, c.startIdx, c.isMissing, c.missingBytes)
  }

  /** Consecutive chunks tile the file: chunk k + 1 starts where chunk k ends. */
  lemma ChunksAreAdjacent(k: nat, cSize: nat, b1: seq<u8>, b2: seq<u8>, m1: bool, m2: bool)
    ensures New(k + 1, cSize, b2, m2).startIdx == New(k, cSize, b1, m1).lastIdx
  {
    assert (k + 1) * cSize == k * cSize + cSize;
  }

  /** A deletion emitted for chunk index j points at the first byte of chunk j. */
  lemma DeletionPointsAtChunk(j: nat, cSize: nat, bytes: seq<u8>, isMissing: bool)
    ensures Changes.New(None, true, Some(cSize), None, j).Done?
    ensures Changes.New(None, true, Some(cSize), None, j).value.addOrDelIdx == New(j, cSize, bytes, isMissing).startIdx
  {
  }

  /** `ut_createNewChunk_works`, with index 2 and chunk size 4 (the index constant the test
      uses is not defined in the repository). */
  lemma NewChunkTestVector()
    ensures New(2, 4, [], false).isMissing == false
    ensures New(2, 4, [], false).missingBytes == []
    ensures New(2, 4, [], false).startIdx == 8 && New(2, 4, [], false).lastIdx == 12
  {
  }
}
