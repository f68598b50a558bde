/**
 * `Signature` of src/model/signature.rs: the ordered list of the hashes of the chunks of the
 * original file, and the set of indices already matched (`traced`, a map whose values are
 * always `true`, so its key set).
 */
module Signatures {
  import opened Types
  import opened AdlerSpec
  import opened Adler
  import opened Hashes

  /** Entry i answers a probe with weak hash l1 and strong hash l2: both hashes are equal and
      the entry has not been matched before. */
  predicate Hit(list: seq<Hash>, traced: set<nat>, l1: u32, l2: u64, i: nat)
    requires i < |list|
  {
    list[i].l1 == l1 && list[i].l2 == l2 && i !in traced
  }

  /** The lowest index from `from` on that answers the probe. */
  function FirstHit(list: seq<Hash>, traced: set<nat>, l1: u32, l2: u64, from: nat): (r: Option<nat>)
    requires from <= |list|
    ensures r.Some? ==> from <= r.value < |list| && Hit(list, traced, l1, l2, r.value)
    ensures r.Some? ==> forall j :: from <= j < r.value ==> !Hit(list, traced, l1, l2, j)
    ensures r.None? ==> forall j :: from <= j < |list| ==> !Hit(list, traced, l1, l2, j)
    decreases |list| - from
  {
    if from == |list| then None
    else if Hit(list, traced, l1, l2, from) then Some(from)
    else FirstHit(list, traced, l1, l2, from + 1)
  }

  /** A probe never answers with an index already in `traced`, whatever the hashes. */
  lemma HitIsUntraced(list: seq<Hash>, traced: set<nat>, l1: u32, l2: u64)
    ensures FirstHit(list, traced, l1, l2, 0).Some? ==> FirstHit(list, traced, l1, l2, 0).value !in traced
  {
  }

  /** A run of probes as `try_get_position_of` answers them one after the other: each answer is
      added to `traced` before the next probe. Gives the answers and the final `traced`. */
  function Probes(list: seq<Hash>, traced: set<nat>, queries: seq<(u32, u64)>): (seq<Option<nat>>, set<nat>)
  {
    if queries == [] then ([], traced)
    else
      var (answers, t) := Probes(list, traced, queries[..|queries| - 1]);
      var q := queries[|queries| - 1];
      var r := FirstHit(list, t, q.0, q.1, 0);
      (answers + [r], if r.Some? then t + {r.value} else t)
  }

  /** Over any run of probes each index is returned at most once, every returned index ends up
      in `traced`, and none of them was traced before the run. */
  lemma {:induction false} ProbesAnswerOnce(list: seq<Hash>, traced: set<nat>, queries: seq<(u32, u64)>)
    ensures |Probes(list, traced, queries).0| == |queries|
    ensures forall m, n :: 0 <= m < n < |queries| && Probes(list, traced, queries).0[m].Some? ==>
              Probes(list, traced, queries).0[n] != Probes(list, traced, queries).0[m]
    ensures forall m :: 0 <= m < |queries| && Probes(list, traced, queries).0[m].Some? ==>
              Probes(list, traced, queries).0[m].value in Probes(list, traced, queries).1 &&
              Probes(list, traced, queries).0[m].value !in traced
    ensures traced <= Probes(list, traced, queries).1
    decreases |queries|
  {
    if queries != [] {
      var prefix := queries[..|queries| - 1];
      ProbesAnswerOnce(list, traced, prefix);
      var (answers, t) := Probes(list, traced, prefix);
      var q := queries[|queries| - 1];
      var r := FirstHit(list, t, q.0, q.1, 0);
      assert Probes(list, traced, queries) == (answers + [r], if r.Some? then t + {r.value} else t);
      forall m | 0 <= m < |answers| && answers[m].Some?
        ensures r != answers[m]
      {
        assert answers[m].value in t;
      }
    }
  }

  class Signature {
    var list: seq<Hash>
    var traced: set<nat>
    /** `X2Hash64::sum64`, the strong hash. */
    const sum64: StrongHash

    /** `Signature::new()`: no hashes and nothing traced. */
    constructor (sum64: StrongHash)
      ensures list == [] && traced == {} && this.sum64 == sum64
    {
      list := [];
      traced := {};
      this.sum64 := sum64;
    }

    /** `add(bytes)`: appends the hash of the bytes. */
    method Add(bytes: seq<u8>)
      modifies this`list
      ensures list == old(list) + [Hashes.New(bytes, sum64)]
    {
      list := list + [Hashes.New(bytes, sum64)];
    }

    /** `get(index)`: the hash at the index, if there is one. */
    function Get(index: nat): (r: Option<Hash>)
      reads this
      ensures r.Some? <==> index < |list|
      ensures r.Some? ==> r.value == list[index]
    {
      if index < |list| then Some(list[index]) else None
    }

    /** `len()`: the first index `get` has no hash for. */
    function Len(): (r: nat)
      reads this
      ensures Get(r).None?
      ensures forall i :: 0 <= i < r ==> Get(i).Some?
    {
      |list|
    }

    /** `try_get_position_of(adler)`: the lowest untraced index whose weak hash is the context's
        `sum32()` and whose strong hash is that of the context's window; the index found is
        added to `traced`. A weak match that fails the other two tests does not stop the scan. */
    method TryGetPositionOf(adler: Adler32) returns (r: Option<nat>)
      requires WellFormed(adler.Value())
      modifies this`traced
      ensures r == FirstHit(list, old(traced), Sum32Of(adler.Value()), sum64(adler.window), 0)
      ensures r.Some? ==> traced == old(traced) + {r.value}
      ensures r.None? ==> traced == old(traced)
    {
      var i := 0;
      while i < |list|
        invariant 0 <= i <= |list| && traced == old(traced)
        invariant FirstHit(list, traced, adler.Sum32(), sum64(adler.window), 0)
               == FirstHit(list, traced, adler.Sum32(), sum64(adler.window), i)
      {
        if list[i].l1 == adler.Sum32() {
          if list[i].l2 == sum64(adler.window) && i !in traced {
            traced := traced + {i};
            return Some(i);
          }
        }
        i := i + 1;
      }
      return None;
    }

    /** The chunk-to-hash loop of `file_to_sign_list`: one hash per chunk, in chunk order. */
    method FileToSignList(chunks: seq<seq<u8>>)
      modifies this`list
      ensures |list| == |old(list)| + |chunks|
      ensures list[..|old(list)|] == old(list)
      ensures forall k :: 0 <= k < |chunks| ==> list[|old(list)| + k] == Hashes.New(chunks[k], sum64)
    {
      for k := 0 to |chunks|
        invariant |list| == |old(list)| + k
        invariant list[..|old(list)|] == old(list)
        invariant forall m :: 0 <= m < k ==> list[|old(list)| + m] == Hashes.New(chunks[m], sum64)
      {
        Add(chunks[k]);
      }
    }
  }
}
