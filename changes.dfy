/**
 * One entry of the delta, `Change` of src/model/changes.rs: either a chunk of the original file
 * to delete, or bytes to insert before or after a position.
 */
module Changes {
  import opened Types

  /** `before`: insert before (`Some(true)`) or after (`Some(false)`) the position, `None` for a
      deletion; `addOrDelIdx`: the byte offset of the position; `content`: the bytes to insert. */
  datatype Change = Change(before: Option<bool>, delChunk: bool, addOrDelIdx: nat, content: Option<seq<u8>>)

  /** The message of the panic of `Option::unwrap` on `None`. */
  const UNWRAP_NONE: string := "called `Option::unwrap()` on a `None` value"

  /** `Change::new(before, del_chunk, c_size, content, idx)`. A deletion drops the content and
      scales the chunk index by the chunk size, which it must be given; an insertion keeps its
      content and scales the index only when a chunk size is given. */
  function New(before: Option<bool>, delChunk: bool, cSize: Option<nat>, content: Option<seq<u8>>, idx: nat)
    : (r: Outcome<Change>)
    ensures r.Panic? <==> delChunk && cSize.None?
    ensures r.Panic? ==> r.message == UNWRAP_NONE
    ensures r.Done? ==> r.value.before == before && r.value.delChunk == delChunk
    ensures r.Done? && delChunk ==> r.value.content == None && r.value.addOrDelIdx == idx * cSize.value
    ensures r.Done? && !delChunk ==> r.value.content == content
    ensures r.Done? && !delChunk && cSize.Some? ==> r.value.addOrDelIdx == idx * cSize.value
    ensures r.Done? && !delChunk && cSize.None? ==> r.value.addOrDelIdx == idx
  {
    if delChunk then
      if cSize.None? then Panic(UNWRAP_NONE)
      else Done(Change(before, delChunk, idx * cSize.value, None))
    else
      var addIdx := if cSize.Some? then idx * cSize.value else idx;
      Done(Change(before, delChunk, addIdx, content))
  }

  /** `PartialEq::eq`: field by field. */
  function Eq(a: Change, b: Change): (r: bool)
    ensures r <==> a == b
  {
    a.before == b.before && a.content == b.content && a.delChunk == b.delChunk && a.addOrDelIdx == b.addOrDelIdx
  }

  /** `Clone::clone`: field by field. */
  function Clone(c: Change): (r: Change)
    ensures Eq(r, c)
  {
    Change(c.before, c.delChunk, c.addOrDelIdx, c.content)
  }

  /** The offset of a change never depends on whether a zero index is scaled: the scanner passes
      no chunk size for a match at index 0 and the result is the same offset 0. */
  lemma ZeroIndexUnscaled(before: Option<bool>, c: nat, content: Option<seq<u8>>)
    ensures New(before, false, None, content, 0) == New(before, false, Some(c), content, 0)
  {
  }

  /** `ut_createNewChange_works`: an insertion at chunk 1 with chunk size 4 sits at offset 4. */
  lemma NewChangeTestVector()
    ensures New(Some(true), false, Some(4), Some([]), 1).Done?
    ensures New(Some(true), false, Some(4), Some([]), 1).value.delChunk == false
    ensures New(Some(true), false, Some(4), Some([]), 1).value.addOrDelIdx == 4
    ensures New(Some(true), false, Some(4), Some([]), 1).value.content == Some([])
  {
  }
}
