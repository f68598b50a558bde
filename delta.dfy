/**
 * `DiffingDelta` of src/model/delta.rs: the list of changes that turn the original file, known
 * through its signature, into the modified one. The scan over the modified bytes is proved to
 * compute `DeltaSpec.Delta`, whose properties are proved in module DeltaProps.
 */
module Delta {
  import opened Types
  import opened Adler
  import opened Hashes
  import opened Signatures
  import opened Changes
  import opened DeltaSpec

  class DiffingDelta {
    /** The signature of the original file; the scan marks the chunks it matches as traced. */
    const sign: Signature
    var list: seq<Change>

    /** `DiffingDelta::new(sign)`: no changes yet. */
    constructor (sign: Signature)
      ensures this.sign == sign && list == []
    {
      this.sign := sign;
      list := [];
    }

    /** `add(change)`: appends the change. */
    method Add(change: Change)
      modifies this`list
      ensures list == old(list) + [change]
      ensures Len() == old(Len()) + 1 && Get(old(Len())) == Some(change)
    {
      list := list + [change];
    }

    /** `get(index)`: the change at the index, if there is one. */
    function Get(index: nat): (r: Option<Change>)
      reads this
      ensures r.Some? <==> index < |list|
      ensures r.Some? ==> r.value == list[index]
    {
      if index < |list| then Some(list[index]) else None
    }

    /** `len()`: the first index `get` has no change for. */
    function Len(): (r: nat)
      reads this
      ensures Get(r).None?
      ensures forall i :: 0 <= i < r ==> Get(i).Some?
    {
      |list|
    }

    /** `handle_new_change(before, last_match_idx, c_size, literals)`: appends an insertion of the
        literals, placed by `Change::new`. */
    method HandleNewChange(before: Option<bool>, lastMatchIdx: nat, cSize: Option<nat>, literals: seq<u8>)
      modifies this`list
      ensures list == old(list) + [Insertion(before, lastMatchIdx, cSize, literals)]
    {
      var change := Changes.New(before, false, cSize, Some(literals), lastMatchIdx);
      Add(change.value);
    }

    /** `fill_missing_chunks_if_any(matched_chunks, cz)`: walks the signature's indices j and the
        matched list i together, stepping over j when it is the next matched index, and appends
        a deletion of every other chunk. */
    method FillMissingChunksIfAny(matched: seq<nat>, cz: nat)
      modifies this`list
      ensures list == old(list) + Deletions(MissingFrom(matched, 0, 0, |sign.list|), cz)
    {
      var i: nat := 0;
      var j: nat := 0;
      var len1 := |matched|;
      var len2 := |sign.list|;
      ghost var done: seq<nat> := [];
      while true
        invariant j <= len2
        invariant MissingFrom(matched, 0, 0, len2) == done + MissingFrom(matched, i, j, len2)
        invariant list == old(list) + Deletions(done, cz)
        decreases len2 - j
      {
        if j == len2 {
          assert done + [] == done;
          break;
        }
        if i < len1 && matched[i] == j {
          i := i + 1;
        } else {
          assert done + MissingFrom(matched, i, j, len2) == (done + [j]) + MissingFrom(matched, i, j + 1, len2);
          DeletionsSnoc(done, j, cz);
          Add(Changes.New(None, true, Some(cz), None, j).value);
          done := done + [j];
        }
        j := j + 1;
      }
    }

    /** One pass of the scan loop of `file_to_delta_list`, on byte `b` at position `i` of `len`:
        what `Step` says of the context, the literals, the last match, the matched list and the
        signature's `traced` set; the changes it appends are those `Step` adds. */
    method ScanByte(adler: Adler32, literals: seq<u8>, lastMatchIdx: nat, matchedChunks: seq<nat>,
                    cSize: nat, data: seq<u8>, i: nat, ghost traced0: set<nat>, ghost scan: Scan,
                    ghost base: seq<Change>)
      returns (literals': seq<u8>, lastMatchIdx': nat, matchedChunks': seq<nat>)
      requires i < |data| && scan == ScanPrefix(sign.list, sign.sum64, cSize, data, traced0, i)
      requires list == base + scan.out
      requires scan.adler == adler.Value() && scan.literals == literals && scan.lastMatch == lastMatchIdx
      requires scan.matched == matchedChunks && scan.traced == sign.traced
      modifies adler, this`list, sign`traced
      ensures var next := ScanPrefix(sign.list, sign.sum64, cSize, data, traced0, i + 1);
              && next.adler == adler.Value() && next.literals == literals' && next.lastMatch == lastMatchIdx'
              && next.matched == matchedChunks' && next.traced == sign.traced
              && list == base + next.out
    {
      literals', lastMatchIdx', matchedChunks' := literals, lastMatchIdx, matchedChunks;
      var len := |data|;
      var b := data[i];
      ghost var next := Step(sign.list, sign.sum64, cSize, len, scan, i, b);
      assert next == ScanPrefix(sign.list, sign.sum64, cSize, data, traced0, i + 1);
      adler.RollIn(b);
      if |adler.window| < cSize && i < len - 1 {
        return;
      }
      ghost var evicted := Evict(adler.Value(), literals, cSize);
      if |adler.window| > cSize {
        adler.RollOut();
        literals' := literals' + [adler.rolledOutByte];
      }
      assert evicted == (adler.Value(), literals');
      var idx := sign.TryGetPositionOf(adler);
      if idx.Some? {
        lastMatchIdx' := idx.value;
        matchedChunks' := matchedChunks' + [idx.value];
        if |literals'| > 0 {
          var tempCz := Some(cSize);
          if lastMatchIdx' == 0 {
            tempCz := None;
          }
          HandleNewChange(Some(true), lastMatchIdx', tempCz, literals');
          AppendAssociates3(base, scan.out, [Insertion(Some(true), lastMatchIdx', tempCz, literals')]);
          literals' := [];
        }
        adler.Reset();
      }
    }

    /** The end of `file_to_delta_list`: the literals and the bytes still in the window, if any,
        become one insertion at the index after the last match. */
    method PushTrailing(adler: Adler32, literals: seq<u8>, lastMatchIdx: nat, matchedChunks: seq<nat>,
                        cSize: nat, ghost st: Scan)
      requires st.adler == adler.Value() && st.literals == literals && st.lastMatch == lastMatchIdx
      requires st.matched == matchedChunks
      modifies this`list, adler`window
      ensures list == old(list) + Trailing(st, cSize)
    {
      assert adler.window == st.adler.window;
      if |adler.window| > 0 || |literals| > 0 {
        var rest := literals;
        if |adler.window| > 0 {
          rest := literals + adler.window;
          adler.window := [];
        }
        var idx := lastMatchIdx;
        if |matchedChunks| > 0 && lastMatchIdx == 0 {
          idx := lastMatchIdx + cSize;
        } else {
          idx := lastMatchIdx * cSize + cSize;
        }
        assert idx == TrailingIdx(st, cSize) && rest == st.literals + st.adler.window;
        HandleNewChange(Some(false), idx, None, rest);
      }
    }

    /** The scan loop of `file_to_delta_list` (lines 64-106) over the bytes read, from a fresh
        context: leaves the context and the loop's locals as `ScanPrefix` over all the bytes
        says, and appends that scan's changes. */
    method ScanAll(data: seq<u8>, cSize: nat)
      returns (adler: Adler32, literals: seq<u8>, lastMatchIdx: nat, matchedChunks: seq<nat>, ghost st: Scan)
      modifies this`list, sign`traced
      ensures fresh(adler)
      ensures st == ScanPrefix(sign.list, sign.sum64, cSize, data, old(sign.traced), |data|)
      ensures st.adler == adler.Value() && st.literals == literals && st.lastMatch == lastMatchIdx
      ensures st.matched == matchedChunks && st.traced == sign.traced
      ensures list == old(list) + st.out
    {
      var len := |data|;
      adler := new Adler32();
      literals := [];
      lastMatchIdx := 0;
      matchedChunks := [];
      ghost var traced0 := sign.traced;
      ghost var base := list;
      ghost var signs := sign.list;
      st := ScanPrefix(signs, sign.sum64, cSize, data, traced0, 0);
      for i := 0 to len
        invariant fresh(adler) && sign.list == signs
        invariant st == ScanPrefix(signs, sign.sum64, cSize, data, traced0, i)
        invariant st.adler == adler.Value() && st.literals == literals && st.lastMatch == lastMatchIdx
        invariant st.matched == matchedChunks && st.traced == sign.traced
        invariant list == base + st.out
      {
        literals, lastMatchIdx, matchedChunks := ScanByte(adler, literals, lastMatchIdx, matchedChunks,
                                                          cSize, data, i, traced0, st, base);
        st := ScanPrefix(signs, sign.sum64, cSize, data, traced0, i + 1);
      }
    }

    /** `file_to_delta_list` over the bytes the file read gives (`None` when the read fails,
        which returns `None`): the scan, the deletions of the unmatched chunks, and the trailing
        insertion. Appends the changes of `Delta` and leaves the signature's `traced` set as
        `Delta` says. */
    method FileToDeltaList(bytes: Option<seq<u8>>, cSize: nat) returns (r: Option<()>)
      modifies this`list, sign`traced
      ensures r.None? <==> bytes.None?
      ensures bytes.None? ==> list == old(list) && sign.traced == old(sign.traced)
      ensures bytes.Some? ==>
                list == old(list) + Delta(sign.list, sign.sum64, cSize, bytes.value, old(sign.traced)).0
      ensures bytes.Some? ==> sign.traced == Delta(sign.list, sign.sum64, cSize, bytes.value, old(sign.traced)).1
    {
      if bytes.None? {
        return None;
      }
      var data := bytes.value;
      var adler, literals, lastMatchIdx, matchedChunks, st := ScanAll(data, cSize);
      ghost var dels := Deletions(MissingFrom(matchedChunks, 0, 0, |sign.list|), cSize);
      assert Delta(sign.list, sign.sum64, cSize, data, old(sign.traced)) == (st.out + dels + Trailing(st, cSize), sign.traced);
      FillMissingChunksIfAny(matchedChunks, cSize);
      assert list == old(list) + st.out + dels;
      PushTrailing(adler, literals, lastMatchIdx, matchedChunks, cSize, st);
      AppendAssociates(old(list), st.out, dels, Trailing(st, cSize));
      return Some(());
    }
  }

  lemma AppendAssociates3<T>(a: seq<T>, b: seq<T>, c: seq<T>)
    ensures a + b + c == a + (b + c)
  {
  }

  lemma AppendAssociates<T>(a: seq<T>, b: seq<T>, c: seq<T>, d: seq<T>)
    ensures a + b + c + d == a + (b + c + d)
  {
  }

  /** Deletions of a list with one more index at the end: one more deletion at the end. */
  lemma DeletionsSnoc(done: seq<nat>, j: nat, cz: nat)
    ensures Deletions(done + [j], cz) == Deletions(done, cz) + [Deletion(j, cz)]
  {
    var l := Deletions(done + [j], cz);
    var r := Deletions(done, cz) + [Deletion(j, cz)];
    assert |l| == |r|;
    forall k | 0 <= k < |l|
      ensures l[k] == r[k]
    {
      assert (done + [j])[k] == if k < |done| then done[k] else j;
    }
  }
}
