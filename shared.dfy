/**
 * `Shared` of src/models/shared.rs: the chunk size and the sizes of the two files, each setter
 * guarded by a check of the chunk size that panics. A panic is modelled as a returned message,
 * the state being left as it was when the check failed.
 */
module SharedModel {
  import opened Types
  import FileIO

  const CHUNK_SIZE_ZERO: string := "Chunk size must be non zero!"
  const AT_LEAST_TWO_CHUNKS: string := "chunk size invalid, must have at least 2 chunks for the file"

  /** `panic_if_invalid_chunk_size(c_size, f_size)`: the message of the panic it raises, if any.
      A file size, when given, must exceed the chunk size, which is checked first; the chunk
      size must not be zero. */
  function CheckChunkSize(cSize: nat, fSize: Option<nat>): (r: Option<string>)
    ensures r == Some(AT_LEAST_TWO_CHUNKS) <==> fSize.Some? && cSize >= fSize.value
    ensures r == Some(CHUNK_SIZE_ZERO) <==> (fSize.None? || cSize < fSize.value) && cSize == 0
    ensures r.None? <==> cSize > 0 && (fSize.None? || cSize < fSize.value)
  {
    if fSize.Some? && cSize >= fSize.value then Some(AT_LEAST_TWO_CHUNKS)
    else if cSize == 0 then Some(CHUNK_SIZE_ZERO)
    else None
  }

  /** The check against a file size is what its message says: a chunk size that passes it cuts
      the file into at least two chunks. */
  lemma PassingChunkSizeGivesTwoChunks(cSize: nat, fSize: nat)
    requires CheckChunkSize(cSize, Some(fSize)).None?
    ensures FileIO.ChunkCount(fSize, cSize) >= 2
  {
    var q := (fSize + cSize - 1) / cSize;
    var r := (fSize + cSize - 1) % cSize;
    assert q * cSize + r == fSize + cSize - 1;
    assert q * cSize > cSize;
    FileIO.MulCancelLess(1, q, cSize);
  }

  class Shared {
    var chunkSize: nat
    var origFileSize: nat
    var modifiedFileSize: nat

    /** The state `new` builds once its check has passed. */
    constructor (cSize: nat)
      requires CheckChunkSize(cSize, None).None?
      ensures chunkSize == cSize && origFileSize == 0 && modifiedFileSize == 0
    {
      chunkSize := cSize;
      origFileSize := 0;
      modifiedFileSize := 0;
    }

    /** `Shared::new(c_size)`: panics on a zero chunk size, otherwise both file sizes start at 0. */
    static method New(cSize: nat) returns (r: Outcome<Shared>)
      ensures r.Panic? <==> cSize == 0
      ensures r.Panic? ==> r.message == CHUNK_SIZE_ZERO
      ensures r.Done? ==> fresh(r.value)
      ensures r.Done? ==> r.value.GetChunkSize() == cSize
      ensures r.Done? ==> r.value.GetFileSizeOriginal() == 0 && r.value.GetFileSizeModified() == 0
    {
      var check := CheckChunkSize(cSize, None);
      if check.Some? {
        return Panic(check.value);
      }
      var s := new Shared(cSize);
      return Done(s);
    }

    /** `get_chunk_size()`: the stored field, as it stands. */
    function GetChunkSize(): (r: nat)
      reads this
      ensures r == chunkSize
    {
      chunkSize
    }

    /** `get_file_size_original()`: the stored field, as it stands. */
    function GetFileSizeOriginal(): (r: nat)
      reads this
      ensures r == origFileSize
    {
      origFileSize
    }

    /** `get_file_size_modified()`: the stored field, as it stands. */
    function GetFileSizeModified(): (r: nat)
      reads this
      ensures r == modifiedFileSize
    {
      modifiedFileSize
    }

    /** `update_chunk_size(c_size)`: panics on zero, otherwise only the chunk size changes. */
    method UpdateChunkSize(cSize: nat) returns (panic: Option<string>)
      modifies this`chunkSize
      ensures panic == CheckChunkSize(cSize, None)
      ensures panic.Some? <==> cSize == 0
      ensures panic.None? ==> GetChunkSize() == cSize
      ensures panic.Some? ==> chunkSize == old(chunkSize)
    {
      panic := CheckChunkSize(cSize, None);
      if panic.Some? {
        return;
      }
      chunkSize := cSize;
    }

    /** `set_file_size_original(f_size)`: panics unless the file has room for two chunks,
        otherwise only the original file size changes. */
    method SetFileSizeOriginal(fSize: nat) returns (panic: Option<string>)
      modifies this`origFileSize
      ensures panic == CheckChunkSize(chunkSize, Some(fSize))
      ensures panic.None? ==> GetFileSizeOriginal() == fSize
      ensures panic.Some? ==> origFileSize == old(origFileSize)
    {
      panic := CheckChunkSize(chunkSize, Some(fSize));
      if panic.Some? {
        return;
      }
      origFileSize := fSize;
    }

    /** `set_file_size_modified(f_size)`: the same check, touching only the modified file size. */
    method SetFileSizeModified(fSize: nat) returns (panic: Option<string>)
      modifies this`modifiedFileSize
      ensures panic == CheckChunkSize(chunkSize, Some(fSize))
      ensures panic.None? ==> GetFileSizeModified() == fSize
      ensures panic.Some? ==> modifiedFileSize == old(modifiedFileSize)
    {
      panic := CheckChunkSize(chunkSize, Some(fSize));
      if panic.Some? {
        return;
      }
      modifiedFileSize := fSize;
    }
  }

  /** The tests of src/models/shared.rs: a zero chunk size panics, a file of 80 bytes accepts a
      chunk size of 4 but not of 80. */
  lemma SharedTestVectors()
    ensures CheckChunkSize(0, None) == Some(CHUNK_SIZE_ZERO)
    ensures CheckChunkSize(4, None).None? && CheckChunkSize(5, None).None?
    ensures CheckChunkSize(4, Some(80)).None?
    ensures CheckChunkSize(80, Some(80)) == Some(AT_LEAST_TWO_CHUNKS)
  {
  }
}
