# rhsync-diff-tool: a verified model of the rolling-checksum delta

This project models the matching pipeline of an rsync-style binary diff written in Rust. The
original file is cut into fixed-size chunks, and each chunk gets a two-level hash: a weak
Adler-32 checksum and a strong 64-bit hash. The modified file is then scanned byte by byte with
a rolling Adler-32 window. Windows that match an unused chunk are skipped over. Unmatched bytes
become insertions, and unmatched chunks become deletions.

Modules, one per source file:

- `Types` (types.dfy): the machine widths `u8`, `u32`, `u64`, Rust's `Option`, and an `Outcome`
  for operations that may panic. The strong hash is the function type `StrongHash`.
- `AdlerSpec` (adler_spec.dfy): the arithmetic of Adler-32 as RFC 1950 defines it (section 2.2,
  reference code in section 9). It holds the byte-at-a-time reduced update, the unreduced
  update of the `do1`..`do16` helpers, and the NMAX overflow bound.
- `Adler` (adler.dfy): the `Adler32` context as a value (`AdlerState`) with one transition
  function per operation, and as a class whose methods are proved to perform those transitions
  in place. The `write_bytes` method keeps s1 and s2 in a `u32` at every assignment to them,
  so the NMAX blocking is checked rather than assumed.
- `Hashes` (hash.dfy): `Hash::new`.
- `Changes` (changes.dfy) and `Chunks` (chunk.dfy): the `Change` and `Chunk` values.
- `Signatures` (signature.dfy): the signature table with its `traced` set, and the
  first-match, at-most-once lookup.
- `DeltaSpec` (delta_spec.dfy): the scan of `file_to_delta_list` as functions of the modified
  bytes.
- `Delta` (delta.dfy): the `DiffingDelta` class, whose loop is proved to compute `DeltaSpec`.
- `DeltaProps` (delta_props.dfy): what the scan guarantees, and where the deletion walk goes wrong.
- `FileIO` (fio.dfy): the chunking loop of `read_file_to_chunk_list`, over a byte sequence.
- `SharedModel` (shared.dfy): the `Shared` size validator.

The deletion walk `fill_missing_chunks_if_any` assumes the matched chunk indices rise. The scan
does not guarantee that: chunks can match out of order. When they do, a matched chunk also
gets a deletion. `DeltaProps.OutOfOrderScanDeletesMatchedChunk` shows this on a full scan, and
`DeltaProps.MissingExact` proves the walk exact only for a strictly ascending matched list.

The s2 update of `roll_out` (src/hashing/adler.rs:88-91) is right for every window of at most
65521 bytes. For a window of n bytes whose oldest byte is b, it is right exactly when
(n − 65521)·b ≤ s2 + 65520: past 65521 bytes `wrapping_sub` adds 2^32, which survives
`wrapping_mul` modulo 2^32, and `wrapping_add` wraps it back off only under that condition (`Adler.RollOutTracksIff`, proved for n up
to 131042). Every window of up to 65777 bytes therefore rolls out correctly. The first window
that can fail has 65778 bytes. When it fails, the stored s2 is off by 2^32 mod 65521 = 225,
and the weak hash stops following the window, so matches are missed. The scanner's window
holds at most c_size + 1 bytes, so this first happens at c_size = 65777.
`Adler.RollOutWrongPastBase` shows a 65779-byte window for which `roll_out` stores 65476
where the right value is 65251.

Details of the code that the model keeps:

- `roll_out` (src/hashing/adler.rs:80) returns the context (`&mut Self`), not the evicted
  byte, which it keeps in `rolled_out_byte`.
- `reset` (src/hashing/adler.rs:161-166) leaves `rolled_out_byte` as it was.
- A one-byte `write_bytes` (src/hashing/adler.rs:99-103) goes through `roll_in`. That byte
  enters the window and is counted twice.
- The deletions are produced by a two-pointer walk over the matched list and the signature
  indices (src/model/delta.rs:154-182).

## Model

| member | source | states |
|---|---|---|
| `AdlerSpec.RollingMatchesReference` | src/hashing/adler.rs:64-71 | rolling bytes in one at a time from s1=1, s2=0 gives the RFC 1950 sums A and B of those bytes |
| `AdlerSpec.ReferenceAppend` | src/hashing/adler.rs:65-66 | one more byte rolled in turns the checksum of w into the checksum of w + [b] |
| `AdlerSpec.StepOfReduced` | src/hashing/adler.rs:64-66 | rolling one byte into reduced sums (`roll_in`) equals adding it unreduced as `do1` does and reducing afterwards |
| `AdlerSpec.RollSumsIsReducedAccumulate` | src/hashing/adler.rs:124-135 | adding bytes unreduced and taking one modulo at the end gives the same sums as reducing after every byte |
| `AdlerSpec.ReferenceDropFirst` | src/hashing/adler.rs:88-91 | removing the oldest byte x of an n-byte window subtracts x from A and n·x + 1 from B, modulo 65521 |
| `AdlerSpec.NmaxBound` | src/hashing/adler.rs:10-11 | up to NMAX = 5552 unreduced steps from reduced sums keep both sums below 2^32 |
| `AdlerSpec.AccumulateClosedForm` | src/hashing/adler.rs:14-17 | after the unreduced steps, s1 has grown by the byte sum and s2 by the running totals of s1 |
| `Adler.Initial` | src/hashing/adler.rs:54-62 | `new()` has an empty window and its sums are the checksum of that empty window |
| `Adler.InitialChecksum` | src/hashing/adler.rs:54-62 | `new()` has s1 = 1, s2 = 0, count = 0 and `sum32()` = 1 |
| `Adler.Sum32Of` | src/hashing/adler.rs:157-159 | `sum32()` is s2·65536 + s1 without wrap-around, and it is the RFC 1950 checksum of the window when the sums track the window |
| `Adler.WrappingAdd` | src/hashing/adler.rs:91 | `wrapping_add`: the sum, or the sum less 2^32 when it does not fit |
| `Adler.WrappingSub` | src/hashing/adler.rs:91 | `wrapping_sub`: the difference, or the difference plus 2^32 when it is negative |
| `Adler.WrappingMul` | src/hashing/adler.rs:91 | `wrapping_mul`: congruent to the product modulo 2^32, and the product itself when it fits |
| `Adler.AfterRollOut` | src/hashing/adler.rs:80-94 | on an empty window only the count becomes 0; otherwise window[0] leaves the window into `rolled_out_byte`, the count drops by one and s1 loses that byte modulo 65521 (s2: `RollOutDropsOldest`) |
| `Adler.AfterWriteBytes` | src/hashing/adler.rs:97-155 | except for one byte, the sums are the unreduced accumulation reduced once, the window is unchanged and the count grows by len; one byte is a `roll_in` step, joins the window and is counted twice |
| `Adler.AfterRollIn` | src/hashing/adler.rs:64-71 | `roll_in(b)` appends b to the window, adds one to the count, applies the reduced update to s1 and s2, and keeps the sums tracking the window |
| `Adler.RollOutDropsOldest` | src/hashing/adler.rs:80-95 | `roll_out` on a window of 1..65777 bytes moves window[0] to `rolled_out_byte`, decrements the count, and leaves the checksum of window[1..] |
| `Adler.RollOutTracksIff` | src/hashing/adler.rs:80-95 | for a window of 1..131042 bytes whose sums track it, `roll_out` leaves the checksum of window[1..] if and only if (n − 65521)·b ≤ s2 + 65520, with b the oldest byte |
| `Adler.RollOutS2` | src/hashing/adler.rs:81-91 | the u32 value the s2 update hands to `% BASE` is the exact s2 + 65520 + (65521 − n)·b when that is not negative, and 2^32 more when it is |
| `Adler.RollOutNoWrap` | src/hashing/adler.rs:81-91 | for a window of at most 65521 bytes none of the wrapping u32 operations in the s2 update wraps |
| `Adler.RollOutWrongPastBase` | src/hashing/adler.rs:88-91 | for a 65779-byte window with oldest byte 255 and s2 = 0, `roll_out` stores s2 = 65476 while the remaining window's second sum is 65251, so the sums no longer track the window |
| `Adler.RollOutEmpty` | src/hashing/adler.rs:81-85 | `roll_out` on an empty window only sets the count to 0 |
| `Adler.WriteBytesAgreesWithRolling` | src/hashing/adler.rs:64-71 | `roll_in` over every byte in turn (`RollInAll`) leaves the same s1 and s2 as the reduced fold that `write_bytes` computes |
| `Adler.WriteBytesWindowAndCount` | src/hashing/adler.rs:99-111 | `write_bytes` leaves the window alone and adds len to the count, except a one-byte call, which appends the byte and adds 2 |
| `Adler.FromBytesChecksum` | src/hashing/adler.rs:74-78 | `from_bytes(bytes)` has the RFC 1950 sums and checksum of the bytes |
| `Adler.AfterReset` | src/hashing/adler.rs:161-166 | `reset` gives s1 = 1, s2 = 0, count 0 and an empty window, keeps `rolled_out_byte`, and the sums track the empty window |
| `Adler.SlideKeepsChecksum` | src/hashing/adler.rs:64-95 | one roll-in then one roll-out on a window of at most 65776 bytes keeps the sums those of the shifted window |
| `Adler.RollingEquivalence` | src/hashing/adler.rs:64-95 | for w ≤ 65776, rolling in w bytes then sliding k times gives the window bytes[k..k+w] and its from-scratch checksum |
| `Adler.TestVectors` | src/hashing/adler.rs:182-184 | "" gives 0x1, "a" gives 0x00620062, "abc" gives 0x024d0127 |
| `Adler.LongTestVector` | src/hashing/adler.rs:195 | 64000 bytes of 0xFF give 0xD6251498 |
| `Adler.Do1` | src/hashing/adler.rs:14-17 | `do1` is one unreduced step over bytes[0] |
| `Adler.Do2` | src/hashing/adler.rs:20-23 | `do2` is the unreduced accumulation of bytes[..2] |
| `Adler.Do4` | src/hashing/adler.rs:26-29 | `do4` is the unreduced accumulation of bytes[..4] |
| `Adler.Do8` | src/hashing/adler.rs:32-35 | `do8` is the unreduced accumulation of bytes[..8] |
| `Adler.Do16` | src/hashing/adler.rs:38-41 | `do16` is the unreduced accumulation of bytes[..16] |
| `Adler.Adler32.constructor` | src/hashing/adler.rs:54-62 | the new context is `Initial()` |
| `Adler.Adler32.FromBytes` | src/hashing/adler.rs:74-78 | a fresh context after `write_bytes(bytes)` |
| `Adler.Adler32.Sum32` | src/hashing/adler.rs:157-159 | the context's `sum32()` |
| `Adler.Adler32.RollIn` | src/hashing/adler.rs:64-71 | the new state is `AfterRollIn` of the old one |
| `Adler.Adler32.RollOut` | src/hashing/adler.rs:80-95 | the new state is `AfterRollOut` of the old one |
| `Adler.Adler32.Reset` | src/hashing/adler.rs:161-166 | sums back to (1, 0), count 0, window empty, `rolled_out_byte` kept |
| `Adler.Adler32.WriteBytes` | src/hashing/adler.rs:97-155 | the NMAX-blocked code, with every store to s1 and s2 checked as a u32, reaches `AfterWriteBytes` of the old state, that is the per-byte reduced fold of the bytes |
| `Adler.Adler32.AddShort` | src/hashing/adler.rs:106-119 | fewer than 16 bytes, one subtraction and one modulo, give the rolled sums |
| `Adler.Adler32.AddNmaxBlock` | src/hashing/adler.rs:125-135 | one NMAX block added sixteen bytes at a time gives the rolled sums of the block |
| `Adler.Adler32.AddRemainder` | src/hashing/adler.rs:138-153 | the remaining bytes, fewer than NMAX, give the rolled sums of the rest |
| `Adler.Adler32.AddBytewise` | src/hashing/adler.rs:145-153 | the byte-at-a-time tail and its modulo complete the rolled sums |
| `Hashes.New` | src/model/hash.rs:18-23 | L1 is the RFC 1950 checksum of the bytes, as `write_bytes` then `sum32` gives it; L2 is the strong hash of the bytes |
| `Hashes.NewAgreesWithRolling` | src/model/hash.rs:21 | L1 equals the `sum32` of a context that rolled the same bytes in one at a time |
| `Hashes.ChunkTestVector` | src/model/hash.rs:31-35 | L1 of "chunk" is 104464922 |
| `Changes.New` | src/model/changes.rs:43-78 | a deletion drops the content and scales the index by the chunk size, panicking on unwrap without one; an insertion keeps its content and scales only when given a chunk size |
| `Changes.Eq` | src/model/changes.rs:22-29 | true iff all four fields are equal |
| `Changes.Clone` | src/model/changes.rs:31-40 | the copy is equal to the original |
| `Changes.ZeroIndexUnscaled` | src/model/delta.rs:90-93 | passing no chunk size for a match at index 0 gives the same change as scaling |
| `Changes.NewChangeTestVector` | src/model/changes.rs:87-99 | index 1 with chunk size 4 gives offset 4, no deletion, empty content |
| `Chunks.New` | src/model/chunk.rs:37-51 | start is cur_idx·c_size, end minus start is c_size, flag and bytes stored unchanged |
| `Chunks.Eq` | src/model/chunk.rs:16-23 | true iff all four fields are equal |
| `Chunks.Clone` | src/model/chunk.rs:25-34 | the copy is equal to the original |
| `Chunks.ChunksAreAdjacent` | src/model/chunk.rs:48-49 | chunk k + 1 starts where chunk k ends |
| `Chunks.DeletionPointsAtChunk` | src/model/delta.rs:172-178 | the deletion of chunk j points at the first byte of chunk j |
| `Chunks.NewChunkTestVector` | src/model/chunk.rs:60-74 | index 2 with chunk size 4 gives the range [8, 12) |
| `Signatures.FirstHit` | src/model/signature.rs:43-57 | the lowest index from `from` whose weak and strong hashes match and which is not traced, or none if no index qualifies |
| `Signatures.HitIsUntraced` | src/model/signature.rs:45-50 | a probe never answers with a traced index |
| `Signatures.ProbesAnswerOnce` | src/model/signature.rs:49-53 | over any run of probes each index is returned at most once, and each returned index is added to `traced` |
| `Signatures.Signature.constructor` | src/model/signature.rs:21-26 | an empty list and an empty `traced` set |
| `Signatures.Signature.Add` | src/model/signature.rs:28-33 | appends exactly `Hash::new(bytes)` |
| `Signatures.Signature.Get` | src/model/signature.rs:35-37 | `Some(list[i])` iff i < len, otherwise `None` |
| `Signatures.Signature.Len` | src/model/signature.rs:39-41 | the first index `get` has no hash for |
| `Signatures.Signature.TryGetPositionOf` | src/model/signature.rs:43-58 | returns `FirstHit` for the context's `sum32` and the strong hash of its window; `traced` gains exactly the index found; the list is unchanged |
| `Signatures.Signature.FileToSignList` | src/model/signature.rs:77-80 | appends one hash per chunk, in chunk order |
| `DeltaSpec.Insertion` | src/model/delta.rs:136-152 | the insertion `handle_new_change` adds is exactly what `Change::new` returns for it (never its panic): content = literals, no deletion, index scaled only when given a chunk size |
| `DeltaSpec.Deletion` | src/model/delta.rs:172-178 | the deletion of chunk j: no content, offset j·cz |
| `DeltaSpec.Deletions` | src/model/delta.rs:164-181 | one deletion per index, in the same order |
| `DeltaSpec.Record` | src/model/delta.rs:83-105 | a match empties the literals and the window, appends the index to the matched list and to `traced`, and sets the last match |
| `DeltaSpec.Evict` | src/model/delta.rs:75-79 | a window longer than c_size loses its oldest byte to the end of the literals, and a shorter one is left alone; literals then window always spell the same bytes, and the context stays well formed |
| `DeltaSpec.Step` | src/model/delta.rs:68-106 | one pass of the scan loop keeps the context well formed; `traced` only grows, and only by indices inside the signature |
| `DeltaSpec.ScanPrefix` | src/model/delta.rs:64-106 | the scan state after n bytes is well formed, and `traced` has grown from the initial set only by indices inside the signature |
| `Delta.DiffingDelta.constructor` | src/model/delta.rs:32-37 | no changes yet |
| `Delta.DiffingDelta.Add` | src/model/delta.rs:39-41 | appends the change; `len` grows by one and `get` at the old length returns it |
| `Delta.DiffingDelta.Get` | src/model/delta.rs:43-45 | `Some(list[i])` iff i < len |
| `Delta.DiffingDelta.Len` | src/model/delta.rs:47-49 | the first index `get` has no change for |
| `Delta.DiffingDelta.HandleNewChange` | src/model/delta.rs:136-152 | appends the insertion `Change::new` builds |
| `Delta.DiffingDelta.FillMissingChunksIfAny` | src/model/delta.rs:154-182 | appends the deletions of `MissingFrom(matched, 0, 0, len)` |
| `Delta.DiffingDelta.ScanByte` | src/model/delta.rs:68-106 | one pass of the loop takes the context, literals, last match, matched list, `traced` and list from `ScanPrefix` over the first i bytes to `ScanPrefix` over the first i + 1 |
| `Delta.DiffingDelta.ScanAll` | src/model/delta.rs:64-106 | the whole loop leaves the context, literals, last match, matched list and `traced` as `ScanPrefix` over all the bytes says, and appends that scan's changes to the list |
| `Delta.DiffingDelta.PushTrailing` | src/model/delta.rs:116-131 | appends the trailing insertion of `Trailing`: the literals and the window left at the end, at the index after the last match, or nothing when both are empty |
| `Delta.DiffingDelta.FileToDeltaList` | src/model/delta.rs:51-134 | `None` iff the read fails; otherwise appends the changes of `Delta` and leaves `traced` as `Delta` says |
| `DeltaSpec.MissingFrom` | src/model/delta.rs:154-182 | the walk emits at most one index per signature index it passes, and skips at most one per matched entry |
| `DeltaSpec.TrailingIdx` | src/model/delta.rs:120-124 | both branches give the offset of the chunk after the last match, (last match + 1)·c_size |
| `DeltaSpec.Trailing` | src/model/delta.rs:116-131 | one After insertion of the literals followed by the window, at (last match + 1)·c_size, iff either is non-empty; otherwise nothing |
| `DeltaSpec.Delta` | src/model/delta.rs:51-134 | `traced` only grows, and every index it gains is inside the signature |
| `DeltaProps.MissingAscending` | src/model/delta.rs:154-182 | the deleted indices rise strictly and lie below the signature length |
| `DeltaProps.MissingComplete` | src/model/delta.rs:164-180 | every index absent from the matched list is deleted, whatever the list's order |
| `DeltaProps.MissingSound` | src/model/delta.rs:168-171 | with a strictly ascending matched list no matched index is deleted |
| `DeltaProps.MissingExact` | src/model/delta.rs:154-182 | with a strictly ascending matched list the deletions are exactly the unmatched indices |
| `DeltaProps.UnorderedMatchDeletesMatchedChunk` | src/model/delta.rs:168 | the matched list [1, 0] makes the walk delete chunk 0 |
| `DeltaProps.OutOfOrderScanDeletesMatchedChunk` | src/model/delta.rs:68-110 | a concrete scan matches chunks 1 then 0, and the delta still deletes chunk 0 |
| `DeltaProps.EvictKeepsBytes` | src/model/delta.rs:75-79 | eviction keeps the literals-then-window byte order and caps the window at c_size |
| `DeltaProps.ScanBookkeeping` | src/model/delta.rs:68-106 | after n bytes, the window holds at most c_size bytes; the matches' literals and windows, then the pending literals and the window, spell the bytes read; the changes so far are one Before insertion per match with literals, at idx·c_size; the matched list and the last match follow the matches |
| `DeltaProps.ScanTraced` | src/model/delta.rs:81-87 | `traced` gains exactly the matched indices, the matched list never repeats an index, and every matched index was untraced and inside the signature |
| `DeltaProps.WindowBound` | src/model/delta.rs:75-79 | at every probe the window holds at most c_size bytes |
| `DeltaProps.ScanWindows` | src/model/delta.rs:71-73 | every matched window has exactly c_size bytes, except a match made on the last byte |
| `DeltaProps.ScanTracks` | src/model/delta.rs:69-79 | with c_size at most 65776 the context's sums are always the checksum of its window |
| `DeltaProps.ScanGenuine` | src/model/delta.rs:81-87 | with c_size at most 65776 every matched chunk's hash is `Hash::new` of the matched window |
| `DeltaProps.DeltaShape` | src/model/delta.rs:68-131 | the output is the in-loop insertions, then the deletions, then one After insertion of the leftover literals and window at (last match + 1)·c_size if any bytes are left; every input byte lies in a matched window or in exactly one insertion |
| `FileIO.ChunkCount` | src/fio/mod.rs:54-64 | the loop makes no chunk exactly when the input is empty |
| `FileIO.ChunkAt` | src/fio/mod.rs:56-63 | chunk k holds at most c_size bytes, at least one when it starts inside the input and c_size > 0, and they are the input bytes from k·c_size on |
| `FileIO.ReadChunks` | src/fio/mod.rs:45-65 | ceil(len / c_size) chunks, chunk k being bytes[k·c_size .. min(k·c_size + c_size, len)] |
| `FileIO.LastChunk` | src/fio/mod.rs:57-60 | the chunk that reaches the end of the input is the last one |
| `FileIO.ChunkCountBounds` | src/fio/mod.rs:54-64 | the last chunk starts inside a non-empty input and reaches its end |
| `FileIO.ChunkLengths` | src/fio/mod.rs:56-60 | every chunk but the last has c_size bytes, the last 1 to c_size |
| `FileIO.ChunksConcatenate` | src/fio/mod.rs:55-64 | the chunks put back together are the input |
| `FileIO.EmptyInputNoChunks` | src/fio/mod.rs:54 | an empty input gives no chunks |
| `FileIO.SampleTestVector` | src/fio/mod.rs:111-130 | the 34-byte fixture in chunks of 4 gives 9 chunks, the first "samp" |
| `SharedModel.CheckChunkSize` | src/models/shared.rs:22-33 | panics with the two-chunk message iff a file size is given and c_size ≥ it, else with the zero message iff c_size = 0 |
| `SharedModel.PassingChunkSizeGivesTwoChunks` | src/models/shared.rs:23-27 | a chunk size that passes the file-size check cuts the file into at least two chunks |
| `SharedModel.Shared.constructor` | src/models/shared.rs:13-20 | chunk size as given, both file sizes 0 |
| `SharedModel.Shared.New` | src/models/shared.rs:13-20 | panics iff c_size = 0; otherwise chunk size c and both file sizes 0 |
| `SharedModel.Shared.GetChunkSize` | src/models/shared.rs:35-37 | `get_chunk_size()` is the stored chunk size |
| `SharedModel.Shared.GetFileSizeOriginal` | src/models/shared.rs:38-40 | `get_file_size_original()` is the stored original file size |
| `SharedModel.Shared.GetFileSizeModified` | src/models/shared.rs:41-43 | `get_file_size_modified()` is the stored modified file size |
| `SharedModel.Shared.UpdateChunkSize` | src/models/shared.rs:45-48 | panics iff c_size = 0; otherwise only the chunk size changes |
| `SharedModel.Shared.SetFileSizeOriginal` | src/models/shared.rs:50-53 | panics iff chunk size ≥ f_size or chunk size is 0; otherwise only the original size changes |
| `SharedModel.Shared.SetFileSizeModified` | src/models/shared.rs:55-58 | the same check, changing only the modified size |
| `SharedModel.SharedTestVectors` | src/models/shared.rs:65-137 | zero panics; a file of 80 accepts chunk size 4 and refuses 80 |

## Left out

- The strong hash `X2Hash64::sum64` (src/hashing/x2hash.rs) wraps the external `xxh3` crate. It is a function parameter, and every result holds for every such function. The pinned L2 value 8438847523455501592 cannot be checked for that reason.
- File reading (`get_file_size`, `read_file_to_bytes` and the path-reading prefixes of `read_file_to_chunk_list`, `file_to_sign_list` and `file_to_delta_list`): the bytes and chunks are parameters. A failed read in `file_to_delta_list` is the `None` input.
- The `println!` calls and `Err::print_err`/`Err::handle` (src/utils.rs) are console output.
- src/common.rs (argument parsing, file-size probing, usage text) and src/main.rs (glue that does not compile as written) are not part of this model.
- `Utility::get_num_of_chunks` uses f32 division. The model uses integer ceiling division, and only for the count of chunks the loop makes.
- usize arithmetic is unbounded in the model: the count of bytes, chunk indices and index·c_size products do not wrap. The u32 sums of Adler-32 and the wrapping u32 operations of `roll_out`'s s2 update are modelled exactly. The u32 cast of the window length in `roll_out`'s emptiness test is not (see `Adler.AfterRollOut` below).
- The signature's `traced` map `BTreeMap<usize, bool>` is modelled by its key set, since every value stored is `true`.
- The test vectors "message digest", the alphabet strings and the 80-digit string of `ut_testVectors_works` are not proved. The four vectors "", "a", "abc" and 64000×0xFF are.
- No end-to-end delta of a concrete file pair is proved, because the strong hash is a parameter.
- Tests that call functions with outdated signatures (src/model/delta.rs:198, 221-226) are not modelled. The chunk test's index constant is not defined in the repository, so 2 is used.
- Patch application, described only in a comment (src/model/delta.rs:5-15), is not implemented in the repository.
- `Adler.AfterRollOut`: the checksum is proved to follow the window only for windows of at most 65777 bytes, and exactly characterised up to 131042 bytes (`Adler.RollOutTracksIff`). Beyond 65777 bytes the u32 arithmetic of `roll_out` can give a wrong s2 (`Adler.RollOutWrongPastBase`). The scanner's window never exceeds c_size + 1.
- `Adler.AfterRollOut`, `Adler.Adler32.RollOut`: the emptiness test is on the window's length itself. src/hashing/adler.rs:81-82 first casts the length to u32, so a window of k·2^32 bytes (k ≥ 1) is taken as empty there: only the count is zeroed and nothing is rolled out. The model rolls out window[0] instead. Modelling the cast would break the invariant that the count is at least the window length, on which every scan lemma rests. The case needs a chunk size of at least 2^32 − 1 bytes.
