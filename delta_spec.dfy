/**
 * What `DiffingDelta::file_to_delta_list` of src/model/delta.rs computes, as functions of the
 * modified bytes: the single scan over the bytes (`Step`, `ScanPrefix`), the walk that emits a
 * deletion for every chunk of the signature that was not matched (`MissingFrom`), and the
 * insertion of the bytes left over at the end (`Trailing`).
 */
module DeltaSpec {
  import opened Types
  import opened AdlerSpec
  import opened Adler
  import opened Hashes
  import opened Signatures
  import opened Changes

  /** One match of the scan: the chunk index found, the literal bytes rolled out since the
      previous match, and the window that matched. */
  datatype Match = Match(index: nat, literals: seq<u8>, window: seq<u8>)

  /** The local state of the scan loop, the signature's `traced` set, the changes added so far,
      and the matches made so far. */
  datatype Scan = Scan(adler: AdlerState, literals: seq<u8>, lastMatch: nat, matched: seq<nat>,
                       traced: set<nat>, out: seq<Change>, matches: seq<Match>)

  /** The insertion `handle_new_change(before, idx, c_size, literals)` adds: what `Change::new`
      builds for an insertion, which never panics. */
  function Insertion(before: Option<bool>, idx: nat, cSize: Option<nat>, literals: seq<u8>): (c: Change)
    ensures Changes.New(before, false, cSize, Some(literals), idx) == Done(c)
    ensures c.before == before && !c.delChunk && c.content == Some(literals)
    ensures c.addOrDelIdx == if cSize.Some? then idx * cSize.value else idx
  {
    Change(before, false, if cSize.Some? then idx * cSize.value else idx, Some(literals))
  }

  /** A window that has grown past the chunk size gives its oldest byte to the literals. */
  function Evict(a: AdlerState, literals: seq<u8>, cSize: nat): (r: (AdlerState, seq<u8>))
    requires WellFormed(a)
    ensures WellFormed(r.0)
    ensures r.1 + r.0.window == literals + a.window
    ensures |a.window| <= cSize ==> r == (a, literals)
    ensures |a.window| > cSize ==> r.0.window == a.window[1..] && r.1 == literals + [a.window[0]]
  {
    if |a.window| > cSize then
      var rest := AfterRollOut(a);
      assert a.window == [a.window[0]] + a.window[1..];
      (rest, literals + [rest.rolledOutByte])
    else (a, literals)
  }

  /** A match at chunk k: the pending literals, if any, become an insertion before chunk k (at
      offset 0 without a chunk size when k is 0); the match is recorded and the context reset. */
  function Record(st: Scan, probed: AdlerState, literals: seq<u8>, k: nat, cSize: nat): (r: Scan)
    ensures WellFormed(r.adler) && r.adler.window == [] && r.literals == []
    ensures r.matched == st.matched + [k] && r.traced == st.traced + {k} && r.lastMatch == k
  {
    var out := if |literals| > 0
               then st.out + [Insertion(Some(true), k, if k == 0 then None else Some(cSize), literals)]
               else st.out;
    Scan(AfterReset(probed), [], k, st.matched + [k], st.traced + {k}, out,
         st.matches + [Match(k, literals, probed.window)])
  }

  /** One pass of the scan loop, on byte `b` at position `i` of `len` bytes: roll the byte in;
      wait for a full window unless this is the last byte; roll an overflowing byte out into the
      literals; probe the signature; on a match, record it. */
  function Step(list: seq<Hash>, sum64: StrongHash, cSize: nat, len: nat, st: Scan, i: nat, b: u8): (r: Scan)
    requires WellFormed(st.adler) && i < len
    ensures WellFormed(r.adler)
    ensures st.traced <= r.traced
    ensures forall k :: k in r.traced && k !in st.traced ==> k < |list|
  {
    var rolled := AfterRollIn(st.adler, b);
    if |rolled.window| < cSize && i < len - 1 then
      st.(adler := rolled)
    else
      var (probed, literals) := Evict(rolled, st.literals, cSize);
      var idx := FirstHit(list, st.traced, Sum32Of(probed), sum64(probed.window), 0);
      if idx.None? then st.(adler := probed, literals := literals)
      else Record(st, probed, literals, idx.value, cSize)
  }

  /** The state of the scan after the first n bytes, starting from a fresh context and the
      given `traced` set. */
  function ScanPrefix(list: seq<Hash>, sum64: StrongHash, cSize: nat, bytes: seq<u8>, traced0: set<nat>, n: nat)
    : (r: Scan)
    requires n <= |bytes|
    ensures WellFormed(r.adler)
    ensures traced0 <= r.traced
    ensures forall k :: k in r.traced && k !in traced0 ==> k < |list|
  {
    if n == 0 then Scan(Initial(), [], 0, [], traced0, [], [])
    else Step(list, sum64, cSize, |bytes|, ScanPrefix(list, sum64, cSize, bytes, traced0, n - 1), n - 1, bytes[n - 1])
  }

  /** `fill_missing_chunks_if_any`, from position i of the matched list and chunk index j on:
      the chunk indices it deletes. It steps over chunk j only when the next matched index is j. */
  function MissingFrom(matched: seq<nat>, i: nat, j: nat, count: nat): (r: seq<nat>)
    requires j <= count
    ensures |r| <= count - j
    ensures i <= |matched| ==> count - j <= |r| + (|matched| - i)
    decreases count - j
  {
    if j == count then []
    else if i < |matched| && matched[i] == j then MissingFrom(matched, i + 1, j + 1, count)
    else [j] + MissingFrom(matched, i, j + 1, count)
  }

  /** The deletion of chunk j: no content, offset j * cz. */
  function Deletion(j: nat, cz: nat): (c: Change)
    ensures c == Change(None, true, j * cz, None)
  {
    Changes.New(None, true, Some(cz), None, j).value
  }

  function Deletions(idxs: seq<nat>, cz: nat): (r: seq<Change>)
    ensures |r| == |idxs|
    ensures forall k :: 0 <= k < |idxs| ==> r[k] == Deletion(idxs[k], cz)
  {
    if idxs == [] then [] else [Deletion(idxs[0], cz)] + Deletions(idxs[1..], cz)
  }

  /** The position the trailing insertion goes after. */
  function TrailingIdx(st: Scan, cSize: nat): (r: nat)
    ensures r == (st.lastMatch + 1) * cSize
  {
    if |st.matched| > 0 && st.lastMatch == 0 then st.lastMatch + cSize else st.lastMatch * cSize + cSize
  }

  /** The insertion of the literals and the window left when the scan ends, if any. */
  function Trailing(st: Scan, cSize: nat): (r: seq<Change>)
    ensures r != [] <==> |st.adler.window| > 0 || |st.literals| > 0
    ensures r != [] ==> r == [Change(Some(false), false, (st.lastMatch + 1) * cSize,
                                     Some(st.literals + st.adler.window))]
  {
    if |st.adler.window| > 0 || |st.literals| > 0 then
      [Insertion(Some(false), TrailingIdx(st, cSize), None, st.literals + st.adler.window)]
    else []
  }

  /** The changes `file_to_delta_list` adds, and the signature's `traced` set afterwards. */
  function Delta(list: seq<Hash>, sum64: StrongHash, cSize: nat, bytes: seq<u8>, traced0: set<nat>)
    : (r: (seq<Change>, set<nat>))
    ensures traced0 <= r.1
    ensures forall k :: k in r.1 && k !in traced0 ==> k < |list|
  {
    var st := ScanPrefix(list, sum64, cSize, bytes, traced0, |bytes|);
    (st.out + Deletions(MissingFrom(st.matched, 0, 0, |list|), cSize) + Trailing(st, cSize), st.traced)
  }

  // ----------------------------------------------------------------------------------------
  // Reference descriptions of the scan's output in terms of its matches

  /** The bytes the matches account for: each match's literals, then its window. */
  function Spelled(ms: seq<Match>): seq<u8>
  {
    if ms == [] then [] else Spelled(ms[..|ms| - 1]) + ms[|ms| - 1].literals + ms[|ms| - 1].window
  }

  /** The insertions the matches call for: the literals before each match that has any, placed
      before the matched chunk, at its offset. */
  function InsertionsOf(ms: seq<Match>, cSize: nat): seq<Change>
  {
    if ms == [] then []
    else
      var m := ms[|ms| - 1];
      InsertionsOf(ms[..|ms| - 1], cSize)
        + (if |m.literals| > 0 then [Change(Some(true), false, m.index * cSize, Some(m.literals))] else [])
  }

  /** The chunk indices of the matches, in the order they were made. */
  function IndicesOf(ms: seq<Match>): seq<nat>
  {
    if ms == [] then [] else IndicesOf(ms[..|ms| - 1]) + [ms[|ms| - 1].index]
  }

  predicate Distinct(s: seq<nat>)
  {
    forall p, q :: 0 <= p < q < |s| ==> s[p] != s[q]
  }

  predicate StrictlyAscending(s: seq<nat>)
  {
    forall p, q :: 0 <= p < q < |s| ==> s[p] < s[q]
  }
}
