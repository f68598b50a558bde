/**
 * Properties of the delta of src/model/delta.rs: the deletion walk of
 * `fill_missing_chunks_if_any`, the invariants of the scan loop of `file_to_delta_list`, and
 * the shape of the whole output.
 */
module DeltaProps {
  import opened Types
  import opened AdlerSpec
  import opened Adler
  import opened Hashes
  import opened Signatures
  import opened Changes
  import opened DeltaSpec

  // ----------------------------------------------------------------------------------------
  // The deletion walk

  /** The deleted chunk indices rise strictly and lie in [j, count). */
  lemma {:induction false} MissingAscending(matched: seq<nat>, i: nat, j: nat, count: nat)
    requires j <= count
    ensures StrictlyAscending(MissingFrom(matched, i, j, count))
    ensures forall q :: 0 <= q < |MissingFrom(matched, i, j, count)| ==> j <= MissingFrom(matched, i, j, count)[q] < count
    decreases count - j
  {
    if j < count {
      if i < |matched| && matched[i] == j {
        MissingAscending(matched, i + 1, j + 1, count);
      } else {
        MissingAscending(matched, i, j + 1, count);
        var rest := MissingFrom(matched, i, j + 1, count);
        var r := [j] + rest;
        assert MissingFrom(matched, i, j, count) == r;
        forall q | 0 < q < |r|
          ensures r[q] == rest[q - 1] && j < r[q] < count
        {
        }
      }
    }
  }

  /** The same bounds, for membership. */
  lemma MissingBounds(matched: seq<nat>, i: nat, j: nat, count: nat, x: nat)
    requires j <= count && x in MissingFrom(matched, i, j, count)
    ensures j <= x < count
  {
    MissingAscending(matched, i, j, count);
  }

  /** Every chunk index from j on that the rest of the matched list does not hold is deleted,
      whatever the order of the matched list. */
  lemma {:induction false} MissingComplete(matched: seq<nat>, i: nat, j: nat, count: nat, x: nat)
    requires i <= |matched| && j <= x < count && x !in matched[i..]
    ensures x in MissingFrom(matched, i, j, count)
    decreases count - j
  {
    if i < |matched| && matched[i] == j {
      assert matched[i..] == [matched[i]] + matched[i + 1..];
      MissingComplete(matched, i + 1, j + 1, count, x);
    } else if x != j {
      MissingComplete(matched, i, j + 1, count, x);
    }
  }

  /** When the rest of the matched list rises strictly from j on, no matched index is deleted. */
  lemma {:induction false} MissingSound(matched: seq<nat>, i: nat, j: nat, count: nat, x: nat)
    requires i <= |matched| && j <= count
    requires StrictlyAscending(matched)
    requires forall p :: i <= p < |matched| ==> j <= matched[p]
    requires x in MissingFrom(matched, i, j, count)
    ensures x !in matched[i..]
    decreases count - j
  {
    if i < |matched| && matched[i] == j {
      MissingBounds(matched, i + 1, j + 1, count, x);
      MissingSound(matched, i + 1, j + 1, count, x);
      assert matched[i..] == [matched[i]] + matched[i + 1..];
    } else {
      assert forall p :: i <= p < |matched| ==> j < matched[p] by {
        forall p | i <= p < |matched|
          ensures j < matched[p]
        {
          if p > i {
            assert matched[i] < matched[p];
          }
        }
      }
      if x != j {
        MissingSound(matched, i, j + 1, count, x);
      }
    }
  }

  /** `fill_missing_chunks_if_any` with a strictly ascending matched list deletes exactly the
      chunk indices below the signature length that were not matched. */
  lemma MissingExact(matched: seq<nat>, count: nat, x: nat)
    requires StrictlyAscending(matched)
    ensures x in MissingFrom(matched, 0, 0, count) <==> x < count && x !in matched
  {
    assert matched[0..] == matched;
    if x in MissingFrom(matched, 0, 0, count) {
      MissingBounds(matched, 0, 0, count, x);
      MissingSound(matched, 0, 0, count, x);
    } else if x < count && x !in matched {
      MissingComplete(matched, 0, 0, count, x);
    }
  }

  /** The walk assumes the matched list is ascending. Chunks matched out of order, 1 then 0,
      make it delete chunk 0 although chunk 0 was matched. */
  lemma UnorderedMatchDeletesMatchedChunk()
    ensures MissingFrom([1, 0], 0, 0, 2) == [0]
    ensures 0 in [1, 0]
  {
    assert MissingFrom([1, 0], 1, 2, 2) == [];
    assert MissingFrom([1, 0], 0, 1, 2) == [];
  }

  /** The scan itself can match out of order. With chunk size 1, original bytes [1, 0] and
      modified bytes [0, 1], the scan matches chunk 1 and then chunk 0; both chunks are matched,
      yet the output deletes chunk 0, and nothing else. */
  lemma OutOfOrderScanDeletesMatchedChunk(sum64: StrongHash)
    ensures ScanPrefix([Hashes.New([1], sum64), Hashes.New([0], sum64)], sum64, 1, [0, 1], {}, 2).matched == [1, 0]
    ensures Delta([Hashes.New([1], sum64), Hashes.New([0], sum64)], sum64, 1, [0, 1], {}).0
         == [Change(None, true, 0, None)]
  {
    var list := [Hashes.New([1], sum64), Hashes.New([0], sum64)];
    var bytes: seq<u8> := [0, 1];
    assert list[0].l1 == Checksum([1]) && list[1].l1 == Checksum([0]);
    assert Checksum([0]) == 0x10001 && Checksum([1]) == 0x20002 by {
      var z: seq<u8> := [0];
      var o: seq<u8> := [1];
      assert z[..0] == [] && o[..0] == [];
    }
    var s0 := ScanPrefix(list, sum64, 1, bytes, {}, 0);
    var r1 := AfterRollIn(s0.adler, 0);
    assert r1.window == [0] && Sum32Of(r1) == Checksum([0]);
    assert FirstHit(list, {}, Sum32Of(r1), sum64(r1.window), 0) == Some(1) by {
      assert !Hit(list, {}, Sum32Of(r1), sum64(r1.window), 0);
      assert Hit(list, {}, Sum32Of(r1), sum64(r1.window), 1);
    }
    var s1 := ScanPrefix(list, sum64, 1, bytes, {}, 1);
    assert s1.matched == [1] && s1.traced == {1} && s1.adler.window == [] && s1.literals == [] && s1.out == [];
    var r2 := AfterRollIn(s1.adler, 1);
    assert r2.window == [1] && Sum32Of(r2) == Checksum([1]);
    assert FirstHit(list, {1}, Sum32Of(r2), sum64(r2.window), 0) == Some(0) by {
      assert Hit(list, {1}, Sum32Of(r2), sum64(r2.window), 0);
    }
    var s2 := ScanPrefix(list, sum64, 1, bytes, {}, 2);
    assert s2.matched == [1, 0] && s2.adler.window == [] && s2.literals == [] && s2.out == [];
    assert MissingFrom([1, 0], 0, 0, 2) == [0] by {
      assert MissingFrom([1, 0], 1, 2, 2) == [];
      assert MissingFrom([1, 0], 0, 1, 2) == [];
    }
  }

  // ----------------------------------------------------------------------------------------
  // Invariants of the scan

  /** The bookkeeping of the scan after `prefix`: the window never exceeds the chunk size; the
      matches, the pending literals and the window spell the bytes read; the changes emitted are
      the insertions the matches call for; the matched list and the last match follow the
      matches. */
  ghost predicate Bookkept(st: Scan, cSize: nat, prefix: seq<u8>)
  {
    && |st.adler.window| <= cSize
    && Spelled(st.matches) + st.literals + st.adler.window == prefix
    && st.out == InsertionsOf(st.matches, cSize)
    && st.matched == IndicesOf(st.matches)
    && st.lastMatch == (if st.matches == [] then 0 else st.matches[|st.matches| - 1].index)
  }

  /** Evicting keeps the bytes in order (literals, then window) and brings a window of at most
      c_size + 1 bytes back to at most c_size. */
  lemma EvictKeepsBytes(a: AdlerState, literals: seq<u8>, cSize: nat)
    requires WellFormed(a)
    ensures Evict(a, literals, cSize).1 + Evict(a, literals, cSize).0.window == literals + a.window
    ensures |a.window| <= cSize + 1 ==> |Evict(a, literals, cSize).0.window| <= cSize
    ensures cSize <= |a.window| <= cSize + 1 ==> |Evict(a, literals, cSize).0.window| == cSize
  {
    if |a.window| > cSize {
      assert a.window == [a.window[0]] + a.window[1..];
    }
  }

  lemma RecordKeepsBooks(st: Scan, probed: AdlerState, literals: seq<u8>, k: nat, cSize: nat, prefix: seq<u8>)
    requires Spelled(st.matches) + literals + probed.window == prefix
    requires st.out == InsertionsOf(st.matches, cSize) && st.matched == IndicesOf(st.matches)
    ensures Bookkept(Record(st, probed, literals, k, cSize), cSize, prefix)
  {
    var ms := st.matches + [Match(k, literals, probed.window)];
    assert ms[..|ms| - 1] == st.matches;
  }

  lemma StepKeepsBooks(list: seq<Hash>, sum64: StrongHash, cSize: nat, len: nat, st: Scan, i: nat, b: u8, prefix: seq<u8>)
    requires WellFormed(st.adler) && i < len && Bookkept(st, cSize, prefix)
    ensures Bookkept(Step(list, sum64, cSize, len, st, i, b), cSize, prefix + [b])
  {
    var rolled := AfterRollIn(st.adler, b);
    assert Spelled(st.matches) + st.literals + rolled.window == prefix + [b];
    if !(|rolled.window| < cSize && i < len - 1) {
      var (probed, literals) := Evict(rolled, st.literals, cSize);
      EvictKeepsBytes(rolled, st.literals, cSize);
      var idx := FirstHit(list, st.traced, Sum32Of(probed), sum64(probed.window), 0);
      if idx.Some? {
        RecordKeepsBooks(st, probed, literals, idx.value, cSize, prefix + [b]);
      }
    }
  }

  lemma PrefixSnoc(bytes: seq<u8>, n: nat)
    requires 0 < n <= |bytes|
    ensures bytes[..n - 1] + [bytes[n - 1]] == bytes[..n]
  {
  }

  lemma {:induction false} ScanBookkeeping(list: seq<Hash>, sum64: StrongHash, cSize: nat, bytes: seq<u8>, traced0: set<nat>, n: nat, st: Scan)
    requires n <= |bytes| && st == ScanPrefix(list, sum64, cSize, bytes, traced0, n)
    ensures Bookkept(st, cSize, bytes[..n])
  {
    if n > 0 {
      var prev := ScanPrefix(list, sum64, cSize, bytes, traced0, n - 1);
      ScanBookkeeping(list, sum64, cSize, bytes, traced0, n - 1, prev);
      StepKeepsBooks(list, sum64, cSize, |bytes|, prev, n - 1, bytes[n - 1], bytes[..n - 1]);
      PrefixSnoc(bytes, n);
    }
  }

  /** `traced` gains exactly the matched indices; no index is matched twice, none was traced
      before the scan, and each is an index of the signature. */
  ghost predicate TracedKept(st: Scan, traced0: set<nat>, count: nat)
  {
    && (forall k :: k in st.traced <==> k in traced0 || k in st.matched)
    && Distinct(st.matched)
    && (forall k :: k in st.matched ==> k !in traced0 && k < count)
  }

  lemma StepKeepsTraced(list: seq<Hash>, sum64: StrongHash, cSize: nat, len: nat, st: Scan, i: nat, b: u8, traced0: set<nat>)
    requires WellFormed(st.adler) && i < len && TracedKept(st, traced0, |list|)
    ensures TracedKept(Step(list, sum64, cSize, len, st, i, b), traced0, |list|)
  {
    var r := Step(list, sum64, cSize, len, st, i, b);
    if r.matched != st.matched {
      var k := r.matched[|r.matched| - 1];
      assert r.matched == st.matched + [k] && r.traced == st.traced + {k};
      assert k !in st.traced;
      forall p, q | 0 <= p < q < |r.matched|
        ensures r.matched[p] != r.matched[q]
      {
        if q == |r.matched| - 1 {
          assert r.matched[p] == st.matched[p] && st.matched[p] in st.matched;
        }
      }
    }
  }

  lemma {:induction false} ScanTraced(list: seq<Hash>, sum64: StrongHash, cSize: nat, bytes: seq<u8>, traced0: set<nat>, n: nat, st: Scan)
    requires n <= |bytes| && st == ScanPrefix(list, sum64, cSize, bytes, traced0, n)
    ensures TracedKept(st, traced0, |list|)
  {
    if n > 0 {
      var prev := ScanPrefix(list, sum64, cSize, bytes, traced0, n - 1);
      ScanTraced(list, sum64, cSize, bytes, traced0, n - 1, prev);
      StepKeepsTraced(list, sum64, cSize, |bytes|, prev, n - 1, bytes[n - 1], traced0);
    }
  }

  /** Matches are only probed on a full window, except at the last byte: every matched window
      has exactly c_size bytes, but for a match made on the last byte, which is the last match. */
  ghost predicate WindowsFull(st: Scan, cSize: nat, upto: int)
  {
    forall p :: 0 <= p < |st.matches| && p < upto ==> |st.matches[p].window| == cSize
  }

  /** The window never holds more than c_size bytes. */
  lemma WindowBound(list: seq<Hash>, sum64: StrongHash, cSize: nat, bytes: seq<u8>, traced0: set<nat>, n: nat, st: Scan)
    requires n <= |bytes| && st == ScanPrefix(list, sum64, cSize, bytes, traced0, n)
    ensures |st.adler.window| <= cSize
  {
    ScanBookkeeping(list, sum64, cSize, bytes, traced0, n, st);
  }

  lemma StepKeepsWindows(list: seq<Hash>, sum64: StrongHash, cSize: nat, len: nat, st: Scan, i: nat, b: u8)
    requires WellFormed(st.adler) && i < len && |st.adler.window| <= cSize
    requires WindowsFull(st, cSize, |st.matches|)
    ensures var r := Step(list, sum64, cSize, len, st, i, b);
            WindowsFull(r, cSize, if i < len - 1 then |r.matches| else |r.matches| - 1)
  {
    var rolled := AfterRollIn(st.adler, b);
    if !(|rolled.window| < cSize && i < len - 1) {
      EvictKeepsBytes(rolled, st.literals, cSize);
    }
  }

  lemma {:induction false} ScanWindows(list: seq<Hash>, sum64: StrongHash, cSize: nat, bytes: seq<u8>, traced0: set<nat>, n: nat, st: Scan)
    requires n <= |bytes| && st == ScanPrefix(list, sum64, cSize, bytes, traced0, n)
    ensures WindowsFull(st, cSize, if n < |bytes| then |st.matches| else |st.matches| - 1)
  {
    if n > 0 {
      var prev := ScanPrefix(list, sum64, cSize, bytes, traced0, n - 1);
      ScanWindows(list, sum64, cSize, bytes, traced0, n - 1, prev);
      WindowBound(list, sum64, cSize, bytes, traced0, n - 1, prev);
      StepKeepsWindows(list, sum64, cSize, |bytes|, prev, n - 1, bytes[n - 1]);
    }
  }

  /** With a chunk size of at most MAX_SLIDE the context's sums are always the Adler-32 sums
      of its window. */
  lemma StepKeepsTracks(list: seq<Hash>, sum64: StrongHash, cSize: nat, len: nat, st: Scan, i: nat, b: u8)
    requires WellFormed(st.adler) && i < len && cSize <= MAX_SLIDE && |st.adler.window| <= cSize
    requires Tracks(st.adler)
    ensures Tracks(Step(list, sum64, cSize, len, st, i, b).adler)
  {
    var rolled := AfterRollIn(st.adler, b);
    if !(|rolled.window| < cSize && i < len - 1) && |rolled.window| > cSize {
      RollOutDropsOldest(rolled);
    }
  }

  lemma {:induction false} ScanTracks(list: seq<Hash>, sum64: StrongHash, cSize: nat, bytes: seq<u8>, traced0: set<nat>, n: nat, st: Scan)
    requires n <= |bytes| && cSize <= MAX_SLIDE && st == ScanPrefix(list, sum64, cSize, bytes, traced0, n)
    ensures Tracks(st.adler)
  {
    if n > 0 {
      var prev := ScanPrefix(list, sum64, cSize, bytes, traced0, n - 1);
      ScanTracks(list, sum64, cSize, bytes, traced0, n - 1, prev);
      WindowBound(list, sum64, cSize, bytes, traced0, n - 1, prev);
      StepKeepsTracks(list, sum64, cSize, |bytes|, prev, n - 1, bytes[n - 1]);
    }
  }

  /** The chunk matched is in the signature and its hash is the hash of the matched window. */
  predicate Genuine(m: Match, list: seq<Hash>, sum64: StrongHash)
  {
    m.index < |list| && list[m.index] == Hashes.New(m.window, sum64)
  }

  /** Every match is genuine. */
  ghost predicate MatchesGenuine(st: Scan, list: seq<Hash>, sum64: StrongHash)
  {
    forall p :: 0 <= p < |st.matches| ==> Genuine(st.matches[p], list, sum64)
  }

  lemma StepKeepsGenuine(list: seq<Hash>, sum64: StrongHash, cSize: nat, len: nat, st: Scan, i: nat, b: u8)
    requires WellFormed(st.adler) && i < len && cSize <= MAX_SLIDE && |st.adler.window| <= cSize
    requires Tracks(st.adler) && MatchesGenuine(st, list, sum64)
    ensures MatchesGenuine(Step(list, sum64, cSize, len, st, i, b), list, sum64)
  {
    var rolled := AfterRollIn(st.adler, b);
    if !(|rolled.window| < cSize && i < len - 1) {
      var over := |rolled.window| > cSize;
      if over {
        RollOutDropsOldest(rolled);
      }
      var probed := if over then AfterRollOut(rolled) else rolled;
      var idx := FirstHit(list, st.traced, Sum32Of(probed), sum64(probed.window), 0);
      if idx.Some? {
        var k := idx.value;
        var h := Hashes.New(probed.window, sum64);
        assert list[k].l1 == h.l1 && list[k].l2 == h.l2;
      }
    }
  }

  /** With a chunk size of at most MAX_SLIDE every match is genuine: the matched chunk's hash
      is the hash of the matched window, the rolling context agreeing with `Hash::new`. */
  lemma {:induction false} ScanGenuine(list: seq<Hash>, sum64: StrongHash, cSize: nat, bytes: seq<u8>, traced0: set<nat>, n: nat, st: Scan)
    requires n <= |bytes| && cSize <= MAX_SLIDE && st == ScanPrefix(list, sum64, cSize, bytes, traced0, n)
    ensures MatchesGenuine(st, list, sum64)
  {
    if n > 0 {
      var prev := ScanPrefix(list, sum64, cSize, bytes, traced0, n - 1);
      ScanGenuine(list, sum64, cSize, bytes, traced0, n - 1, prev);
      ScanTracks(list, sum64, cSize, bytes, traced0, n - 1, prev);
      WindowBound(list, sum64, cSize, bytes, traced0, n - 1, prev);
      StepKeepsGenuine(list, sum64, cSize, |bytes|, prev, n - 1, bytes[n - 1]);
    }
  }

  // ----------------------------------------------------------------------------------------
  // The whole output

  /** The shape of the output of `file_to_delta_list` given the final scan state: the bytes
      read are the matches' literals and windows followed by a tail; the changes are the
      insertions the matches call for, the deletions, and one insertion of the tail after the
      last matched chunk when the tail is not empty. */
  ghost predicate Shaped(st: Scan, bytes: seq<u8>, changes: seq<Change>, count: nat, cSize: nat)
  {
    var tail := st.literals + st.adler.window;
    var last := if st.matches == [] then 0 else st.matches[|st.matches| - 1].index;
    && bytes == Spelled(st.matches) + tail
    && changes == InsertionsOf(st.matches, cSize)
                  + Deletions(MissingFrom(IndicesOf(st.matches), 0, 0, count), cSize)
                  + (if tail == [] then [] else [Change(Some(false), false, (last + 1) * cSize, Some(tail))])
  }

  lemma ShapedFromBooks(st: Scan, bytes: seq<u8>, count: nat, cSize: nat)
    requires Bookkept(st, cSize, bytes)
    ensures Shaped(st, bytes, st.out + Deletions(MissingFrom(st.matched, 0, 0, count), cSize) + Trailing(st, cSize),
                   count, cSize)
  {
    assert TrailingIdx(st, cSize) == (st.lastMatch + 1) * cSize;
  }

  /** The changes `file_to_delta_list` adds are, in order: an insertion before each match that
      was preceded by literals, then a deletion for each chunk the walk finds missing, then, if
      bytes were left in the literals or the window, one insertion of them after the last
      matched chunk (after chunk 0 when nothing matched). Every byte read lies in a matched
      window, in the literals of a match, or in the trailing insertion. */
  lemma DeltaShape(list: seq<Hash>, sum64: StrongHash, cSize: nat, bytes: seq<u8>, traced0: set<nat>)
    ensures Shaped(ScanPrefix(list, sum64, cSize, bytes, traced0, |bytes|), bytes,
                   Delta(list, sum64, cSize, bytes, traced0).0, |list|, cSize)
  {
    var st := ScanPrefix(list, sum64, cSize, bytes, traced0, |bytes|);
    ScanBookkeeping(list, sum64, cSize, bytes, traced0, |bytes|, st);
    assert bytes[..|bytes|] == bytes;
    ShapedFromBooks(st, bytes, |list|, cSize);
  }
}
