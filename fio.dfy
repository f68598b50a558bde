/**
 * The chunking loop of `FileIO::read_file_to_chunk_list` (src/fio/mod.rs): a byte string cut into
 * consecutive chunks of `c_size` bytes, the last one possibly shorter. The file read that
 * produces the bytes is not part of this model; the bytes are a parameter.
 */
module FileIO {
  import opened Types

  function Min(x: int, y: int): int
  {
    if x <= y then x else y
  }

  /** The number of chunks, the integer ceiling of len / c_size. With a zero chunk size the loop
      makes one empty chunk per byte. */
  function ChunkCount(len: nat, cSize: nat): (n: nat)
    ensures len == 0 <==> n == 0
  {
    if cSize == 0 then len else (len + cSize - 1) / cSize
  }

  /** Chunk k: the bytes from k * c_size up to k * c_size + c_size, cut at the end of the input. */
  function ChunkAt(bytes: seq<u8>, cSize: nat, k: nat): (r: seq<u8>)
    requires k * cSize <= |bytes|
    ensures |r| <= cSize && (k * cSize < |bytes| ==> 0 < |r| || cSize == 0)
    ensures k * cSize + |r| <= |bytes|
    ensures r == bytes[k * cSize .. k * cSize + |r|]
  {
    bytes[k * cSize .. Min(k * cSize + cSize, |bytes|)]
  }

  /** The chunking loop. Before each pass `i` is the number of chunks made and chunk i starts
      inside the input; the pass that reaches the end of the input cuts the chunk there and sets
      `i` past the end, which ends the loop. Every chunk starts inside the input. */
  method ReadChunks(bytes: seq<u8>, cSize: nat) returns (buf: seq<seq<u8>>)
    ensures |buf| == ChunkCount(|bytes|, cSize)
    ensures forall k :: 0 <= k < |buf| ==> k * cSize < |bytes| && buf[k] == ChunkAt(bytes, cSize, k)
  {
    var i := 0;
    var s := 0;
    var e := 0;
    var len := |bytes|;
    buf := [];
    while i < len
      invariant i < len ==> i == |buf| && i * cSize < len
      invariant i >= len ==> |buf| == ChunkCount(len, cSize)
      invariant forall k :: 0 <= k < |buf| ==> k * cSize < len && buf[k] == ChunkAt(bytes, cSize, k)
      decreases len - i
    {
      s := i * cSize;
      e := i * cSize + cSize;
      ghost var chunk := ChunkAt(bytes, cSize, i);
      assert chunk == bytes[s..Min(e, len)];
      if e >= len {
        e := len;
        LastChunk(len, cSize, i);
        i := len;
      } else {
        MulSucc(i, cSize);
        if cSize > 0 {
          AtLeastFactor(i + 1, cSize);
        }
      }
      assert s <= e <= len && e == Min(s + cSize, len);
      buf := buf + [bytes[s..e]];
      i := i + 1;
    }
  }

  /** A chunk that reaches the end of a non-empty input is the last one: then i + 1 chunks in all. */
  lemma LastChunk(len: nat, cSize: nat, i: nat)
    requires i * cSize < len <= i * cSize + cSize
    ensures ChunkCount(len, cSize) == i + 1
  {
    var q := (len + cSize - 1) / cSize;
    var r := (len + cSize - 1) % cSize;
    assert q * cSize + r == len + cSize - 1;
    MulCancelLess(i, q, cSize);
    assert (i + 2) * cSize == i * cSize + 2 * cSize;
    MulCancelLess(q, i + 2, cSize);
  }

  lemma MulSucc(x: nat, c: nat)
    ensures (x + 1) * c == x * c + c
  {
  }

  lemma MulMonotoneLeft(x: nat, y: nat, c: nat)
    requires x <= y
    ensures x * c <= y * c
  {
  }

  lemma MulCancelLess(x: nat, y: nat, c: nat)
    requires x * c < y * c
    ensures x < y
  {
  }

  lemma AtLeastFactor(x: nat, c: nat)
    requires c > 0
    ensures x <= x * c
  {
  }

  /** For a positive chunk size and a non-empty input, the last chunk starts inside the input and
      reaches its end: (n - 1) * c_size < len <= n * c_size for n chunks. */
  lemma ChunkCountBounds(len: nat, cSize: nat)
    requires cSize > 0 && len > 0
    ensures ChunkCount(len, cSize) >= 1
    ensures (ChunkCount(len, cSize) - 1) * cSize < len <= ChunkCount(len, cSize) * cSize
  {
    var q := (len + cSize - 1) / cSize;
    var r := (len + cSize - 1) % cSize;
    assert q * cSize + r == len + cSize - 1;
    assert (q - 1) * cSize == q * cSize - cSize;
  }

  /** Every chunk but the last holds exactly c_size bytes; the last holds 1 to c_size bytes. */
  lemma ChunkLengths(bytes: seq<u8>, cSize: nat, k: nat)
    requires cSize > 0 && k < ChunkCount(|bytes|, cSize)
    ensures k * cSize < |bytes|
    ensures k + 1 < ChunkCount(|bytes|, cSize) ==> |ChunkAt(bytes, cSize, k)| == cSize
    ensures k + 1 == ChunkCount(|bytes|, cSize) ==> 1 <= |ChunkAt(bytes, cSize, k)| <= cSize
  {
    var n := ChunkCount(|bytes|, cSize);
    ChunkCountBounds(|bytes|, cSize);
    MulMonotoneLeft(k, n - 1, cSize);
    if k + 1 < n {
      MulMonotoneLeft(k + 1, n - 1, cSize);
      assert (k + 1) * cSize == k * cSize + cSize;
    } else {
      assert k * cSize + cSize == n * cSize;
    }
  }

  /** Concatenating the first m chunks gives the first min(m * c_size, len) bytes. */
  lemma {:induction false} ChunksPrefix(bytes: seq<u8>, cSize: nat, buf: seq<seq<u8>>, m: nat)
    requires m <= |buf|
    requires forall k :: 0 <= k < |buf| ==> k * cSize < |bytes| && buf[k] == ChunkAt(bytes, cSize, k)
    ensures Flatten(buf[..m]) == bytes[..Min(m * cSize, |bytes|)]
  {
    if m == 0 {
      assert buf[..0] == [];
    } else {
      ChunksPrefix(bytes, cSize, buf, m - 1);
      assert (m - 1) * cSize < |bytes| && buf[m - 1] == ChunkAt(bytes, cSize, m - 1);
      assert buf[..m][..m - 1] == buf[..m - 1];
      PrefixStep(bytes, cSize, m - 1);
    }
  }

  /** The bytes before chunk k followed by chunk k are the bytes before chunk k + 1. */
  lemma PrefixStep(bytes: seq<u8>, cSize: nat, k: nat)
    requires k * cSize < |bytes|
    ensures bytes[..Min(k * cSize, |bytes|)] + ChunkAt(bytes, cSize, k) == bytes[..Min((k + 1) * cSize, |bytes|)]
  {
    var lo := k * cSize;
    assert (k + 1) * cSize == lo + cSize;
    var hi := Min(lo + cSize, |bytes|);
    assert bytes[..hi] == bytes[..lo] + bytes[lo..hi];
  }

  /** With a positive chunk size the chunks put back together are the input. */
  lemma ChunksConcatenate(bytes: seq<u8>, cSize: nat, buf: seq<seq<u8>>)
    requires cSize > 0 && |buf| == ChunkCount(|bytes|, cSize)
    requires forall k :: 0 <= k < |buf| ==> k * cSize < |bytes| && buf[k] == ChunkAt(bytes, cSize, k)
    ensures Flatten(buf) == bytes
  {
    ChunksPrefix(bytes, cSize, buf, |buf|);
    assert buf[..|buf|] == buf;
    if |bytes| > 0 {
      ChunkCountBounds(|bytes|, cSize);
    }
  }

  /** An empty input gives no chunks. */
  lemma EmptyInputNoChunks(cSize: nat)
    ensures ChunkCount(0, cSize) == 0
  {
  }

  /** "sample data for rolling hash diff." as bytes. */
  const SAMPLE: seq<u8> := [115, 97, 109, 112, 108, 101, 32, 100, 97, 116, 97, 32, 102, 111, 114, 32, 114,
                            111, 108, 108, 105, 110, 103, 32, 104, 97, 115, 104, 32, 100, 105, 102, 102, 46]

  /** `ut_fileToChunkList_works`: the 34-byte fixture in chunks of 4 gives 9 chunks, the first
      being "samp". */
  lemma SampleTestVector()
    ensures |SAMPLE| == 34 && ChunkCount(|SAMPLE|, 4) == 9
    ensures ChunkAt(SAMPLE, 4, 0) == [115, 97, 109, 112]
  {
  }
}
