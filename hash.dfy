/**
 * The two-level chunk hash `Hash` of src/model/hash.rs: a weak Adler-32 checksum (level 1) and a
 * strong 64-bit hash (level 2). The strong hash is a parameter of the model.
 */
module Hashes {
  import opened Types
  import opened AdlerSpec
  import opened Adler

  /** The derived `PartialEq` compares both fields, which is the equality of this datatype. */
  datatype Hash = Hash(l1: u32, l2: u64)

  /** `Hash::new(bytes)`: level 1 is `sum32()` of a fresh context after `write_bytes(bytes)`,
      which is the RFC 1950 checksum of the bytes; level 2 is the strong hash of the bytes. */
  function New(bytes: seq<u8>, sum64: StrongHash): (h: Hash)
    ensures h.l1 == Checksum(bytes)
    ensures h.l2 == sum64(bytes)
  {
    FromBytesChecksum(bytes);
    Hash(Sum32Of(AfterWriteBytes(Initial(), bytes)), sum64(bytes))
  }

  /** The weak hash stored by `Hash::new` is the one the scanner computes by rolling the same
      bytes in one at a time, so a window equal to a chunk is recognised. */
  lemma NewAgreesWithRolling(bytes: seq<u8>, sum64: StrongHash)
    ensures New(bytes, sum64).l1 == Sum32Of(RollInAll(Initial(), bytes))
  {
    WriteBytesAgreesWithRolling(Initial(), bytes);
    RollingMatchesReference(bytes);
  }

  /** `ut_createNewHash_works`: the weak hash of "chunk" is 104464922 (s2 = 1594, s1 = 538). */
  lemma ChunkTestVector(sum64: StrongHash)
    ensures New([99, 104, 117, 110, 107], sum64).l1 == 104464922
  {
    var w1: seq<u8> := [99];
    var w2: seq<u8> := w1 + [104];
    var w3: seq<u8> := w2 + [117];
    var w4: seq<u8> := w3 + [110];
    var w5: seq<u8> := w4 + [107];
    assert w1[..0] == [] && w2[..1] == w1 && w3[..2] == w2 && w4[..3] == w3 && w5[..4] == w4;
    assert Sum(w1) == 99 && Running(1, w1) == 100;
    assert Sum(w2) == 203 && Running(1, w2) == 304;
    assert Sum(w3) == 320 && Running(1, w3) == 625;
    assert Sum(w4) == 430 && Running(1, w4) == 1056;
    assert Sum(w5) == 537 && Running(1, w5) == 1594;
    assert w5 == [99, 104, 117, 110, 107];
    assert Checksum(w5) == 1594 * 0x10000 + 538;
  }
}
