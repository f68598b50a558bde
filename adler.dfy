/**
 * The rolling Adler-32 context `Adler32` of src/hashing/adler.rs: the two sums, a byte counter,
 * the window of bytes rolled in and not yet rolled out, and the last byte rolled out.
 *
 * `AdlerState` is the value of one context; `AfterRollIn`, `AfterRollOut`, `AfterWriteBytes` and
 * `AfterReset` say what each operation makes of it, and the class `Adler32` performs the
 * operations in place, each method proved to produce exactly that new value.
 */
module Adler {
  import opened Types
  import opened AdlerSpec

  datatype AdlerState = AdlerState(s1: u32, s2: u32, count: nat, window: seq<u8>, rolledOutByte: u8)

  /** What every operation keeps: both sums reduced, and the counter at least the window length
      (`write_bytes` counts bytes it never puts in the window). */
  predicate WellFormed(a: AdlerState)
  {
    a.s1 < BASE && a.s2 < BASE && |a.window| <= a.count
  }

  function SumsOf(a: AdlerState): Sums
  {
    Sums(a.s1, a.s2)
  }

  /** The sums are the RFC 1950 sums of exactly the bytes in the window. */
  predicate Tracks(a: AdlerState)
  {
    SumsOf(a) == Reference(a.window)
  }

  /** `Adler32::new()`: s1 = 1 & 0xFFFF, s2 = 1 >> 16, nothing counted, empty window. */
  function Initial(): (a: AdlerState)
    ensures WellFormed(a) && Tracks(a) && a.window == []
  {
    AdlerState(1, 0, 0, [], 0)
  }

  /** `sum32()`: `s2 << 16 | s1`. The shift is taken modulo 2^32; the `|` is an addition
      because the low half of the shifted value is zero and s1 < 2^16 in a well-formed context. */
  function Sum32Of(a: AdlerState): (r: u32)
    requires WellFormed(a)
    ensures r == a.s2 * 0x10000 + a.s1
    ensures Tracks(a) ==> r == Checksum(a.window)
  {
    (a.s2 * 0x10000) % U32_MODULUS + a.s1
  }

  /** `roll_in(byte)`. */
  function AfterRollIn(a: AdlerState, b: u8): (r: AdlerState)
    requires WellFormed(a)
    ensures WellFormed(r)
    ensures r.window == a.window + [b] && r.count == a.count + 1
    ensures SumsOf(r) == RollStep(SumsOf(a), b)
    ensures Tracks(a) ==> Tracks(r)
  {
    var s1 := (a.s1 + b) % BASE;
    var s2 := (s1 + a.s2) % BASE;
    ReferenceAppend(a.window, b);
    AdlerState(s1, s2, a.count + 1, a.window + [b], a.rolledOutByte)
  }

  /** `u32::wrapping_add`: the sum, less 2^32 when it does not fit. */
  function WrappingAdd(x: u32, y: u32): (r: u32)
    ensures r == x + y || r == x + y - U32_MODULUS
    ensures x + y < U32_MODULUS ==> r == x + y
  {
    (x + y) % U32_MODULUS
  }

  /** `u32::wrapping_sub`: the difference, plus 2^32 when it is negative. */
  function WrappingSub(x: u32, y: u32): (r: u32)
    ensures r == x - y || r == x - y + U32_MODULUS
    ensures y <= x ==> r == x - y
  {
    (x - y) % U32_MODULUS
  }

  /** `u32::wrapping_mul`: the product modulo 2^32. */
  function WrappingMul(x: u32, y: u32): (r: u32)
    ensures (x * y - r) % U32_MODULUS == 0
    ensures x * y < U32_MODULUS ==> r == x * y
  {
    var p := x * y;
    WrapDifference(p);
    p % U32_MODULUS
  }

  lemma WrapDifference(p: int)
    ensures (p - p % U32_MODULUS) % U32_MODULUS == 0
  {
    assert p - p % U32_MODULUS == (p / U32_MODULUS) * U32_MODULUS;
  }

  /** `roll_out()`, with the u32 cast of the window length and the wrapping operations of the
      s2 update written out. The emptiness test is made on the length itself, not on its u32
      cast. On an empty window only the counter changes: it becomes 0. */
  function AfterRollOut(a: AdlerState): (r: AdlerState)
    requires WellFormed(a)
    ensures WellFormed(r)
    ensures a.window == [] ==> r == a.(count := 0)
    ensures a.window != [] ==> r.window == a.window[1..] && r.rolledOutByte == a.window[0]
    ensures a.window != [] ==> r.count == a.count - 1 && r.s1 == (a.s1 + BASE - a.window[0]) % BASE
  {
    if |a.window| == 0 then
      a.(count := 0)
    else
      var len: u32 := |a.window| % U32_MODULUS;
      var b := a.window[0];
      var s1 := (a.s1 + BASE - b) % BASE;
      var s2 := WrappingAdd(a.s2 + BASE - 1, WrappingMul(WrappingSub(BASE, len), b)) % BASE;
      AdlerState(s1, s2, a.count - 1, a.window[1..], b)
  }

  /** `write_bytes(bytes)`: every byte is folded into the sums; only a one-byte call goes through
      `roll_in` (so that byte enters the window) and then counts the byte a second time. */
  function AfterWriteBytes(a: AdlerState, bytes: seq<u8>): (r: AdlerState)
    requires WellFormed(a)
    ensures WellFormed(r)
    ensures |bytes| != 1 ==> SumsOf(r) == Reduce(Accumulate(SumsOf(a), bytes))
    ensures |bytes| != 1 ==> r.window == a.window && r.count == a.count + |bytes|
    ensures |bytes| == 1 ==> SumsOf(r) == RollStep(SumsOf(a), bytes[0])
    ensures |bytes| == 1 ==> r.window == a.window + bytes && r.count == a.count + 2
  {
    if |bytes| == 1 then
      var r := AfterRollIn(a, bytes[0]);
      r.(count := r.count + 1)
    else
      var s := RollSums(SumsOf(a), bytes);
      RollSumsIsReducedAccumulate(SumsOf(a), bytes);
      a.(s1 := s.a, s2 := s.b, count := a.count + |bytes|)
  }

  /** `reset()`: back to the sums and counter of `new()`, window drained; the last rolled-out
      byte is left as it was. */
  function AfterReset(a: AdlerState): (r: AdlerState)
    ensures r.s1 == 1 && r.s2 == 0 && r.count == 0 && r.window == [] && r.rolledOutByte == a.rolledOutByte
    ensures WellFormed(r) && Tracks(r)
  {
    a.(s1 := 1, s2 := 0, count := 0, window := [])
  }

  /** `roll_in` over every byte of `bytes` in turn. */
  function RollInAll(a: AdlerState, bytes: seq<u8>): (r: AdlerState)
    requires WellFormed(a)
    ensures WellFormed(r)
  {
    if bytes == [] then a else AfterRollIn(RollInAll(a, bytes[..|bytes| - 1]), bytes[|bytes| - 1])
  }

  // ----------------------------------------------------------------------------------------
  // Properties of the operations

  /** `new()` gives s1 = 1, s2 = 0, count = 0, an empty window, and `sum32()` = 1. */
  lemma InitialChecksum()
    ensures Initial().s1 == 1 && Initial().s2 == 0 && Initial().count == 0
    ensures Sum32Of(Initial()) == 1
  {
  }

  /** `roll_out` on a non-empty window of at most 65777 bytes: the oldest byte leaves the window
      and becomes `rolled_out_byte`, and sums that were the checksum of the window become the
      checksum of the rest of it. */
  lemma RollOutDropsOldest(a: AdlerState)
    requires WellFormed(a) && Tracks(a) && 1 <= |a.window| <= 65777
    ensures AfterRollOut(a).window == a.window[1..]
    ensures AfterRollOut(a).rolledOutByte == a.window[0]
    ensures AfterRollOut(a).count == a.count - 1
    ensures Tracks(AfterRollOut(a))
  {
    var n, b := |a.window|, a.window[0];
    if BASE < n {
      MulLe(n - BASE, b, 255);
      MulLe(255, n - BASE, 256);
    } else {
      MulLe(BASE - n, 0, b);
      assert (n - BASE) * b == -((BASE - n) * b);
    }
    assert (n - BASE) * b <= a.s2 + BASE - 1;
    RollOutTracksIff(a);
  }

  /** When `roll_out` is right, for windows of up to 2 * BASE bytes: exactly when the removed
      byte b, times the excess n - BASE of the window length n over BASE, is at most
      s2 + BASE - 1. Below BASE bytes that always holds; the first length where it can fail is
      65778 (257 * 255 > 65520 when s2 < 15). */
  lemma RollOutTracksIff(a: AdlerState)
    requires WellFormed(a) && Tracks(a) && 1 <= |a.window| <= 2 * BASE
    ensures AfterRollOut(a).window == a.window[1..] && AfterRollOut(a).rolledOutByte == a.window[0]
    ensures Tracks(AfterRollOut(a)) <==> (|a.window| - BASE) * a.window[0] <= a.s2 + BASE - 1
  {
    var n, b := |a.window|, a.window[0];
    var v := a.s2 + BASE - 1 + (BASE - n) * b;
    assert (BASE - n) * b == -((n - BASE) * b);
    RollOutS2(a.s2, n, b);
    var got := WrappingAdd(a.s2 + BASE - 1, WrappingMul(WrappingSub(BASE, n), b));
    var r := AfterRollOut(a);
    assert r.s2 == got % BASE && r.s1 == (a.s1 + BASE - b) % BASE;
    ReferenceDropFirst(a.window);
    assert Reference(r.window) == Sums(r.s1, v % BASE);
    if v < 0 {
      ShiftByWordChangesResidue(v);
      assert got % BASE != v % BASE;
    } else {
      assert got == v;
    }
  }

  /** The value `roll_out` hands to the final `% BASE` for s2: the exact
      s2 + BASE - 1 + (BASE - n) * b when that is not negative, and 2^32 more when it is. */
  lemma RollOutS2(s2: u32, n: int, b: u8)
    requires s2 < BASE && 1 <= n <= 2 * BASE
    ensures n % U32_MODULUS == n
    ensures s2 + BASE - 1 + (BASE - n) * b >= 0 ==>
      WrappingAdd(s2 + BASE - 1, WrappingMul(WrappingSub(BASE, n), b)) == s2 + BASE - 1 + (BASE - n) * b
    ensures s2 + BASE - 1 + (BASE - n) * b < 0 ==>
      WrappingAdd(s2 + BASE - 1, WrappingMul(WrappingSub(BASE, n), b)) == s2 + BASE - 1 + (BASE - n) * b + U32_MODULUS
  {
    if n <= BASE {
      RollOutNoWrap(s2, n, b);
    } else {
      var d := (n - BASE) * b;
      MulLe(n - BASE, b, 255);
      assert WrappingSub(BASE, n) == BASE - n + U32_MODULUS;
      if b == 0 {
        assert WrappingMul(BASE - n + U32_MODULUS, b) == 0;
      } else {
        assert (BASE - n + U32_MODULUS) * b == (b - 1) * U32_MODULUS + (U32_MODULUS - d);
        WordResidue(b - 1, U32_MODULUS - d);
        assert WrappingMul(BASE - n + U32_MODULUS, b) == U32_MODULUS - d;
      }
    }
  }

  lemma WordResidue(q: nat, r: int)
    requires 0 <= r < U32_MODULUS
    ensures (q * U32_MODULUS + r) % U32_MODULUS == r
  {
  }

  /** 2^32 is 225 modulo BASE, so adding it changes the residue. */
  lemma ShiftByWordChangesResidue(v: int)
    ensures (v + U32_MODULUS) % BASE != v % BASE
  {
    assert U32_MODULUS == 65551 * BASE + 225;
  }

  /** For a window of at most BASE bytes none of the wrapping operations of `roll_out` wraps. */
  lemma RollOutNoWrap(s2: u32, n: int, b: u8)
    requires s2 < BASE && 1 <= n <= BASE
    ensures n % U32_MODULUS == n
    ensures WrappingAdd(s2 + BASE - 1, WrappingMul(WrappingSub(BASE, n), b))
         == s2 + BASE - 1 + (BASE - n) * b
  {
    assert WrappingSub(BASE, n) == BASE - n;
    MulLe(BASE - n, b, 255);
    MulLe(255, BASE - n, BASE);
    assert WrappingMul(BASE - n, b) == (BASE - n) * b;
  }

  /** Past BASE bytes the wrapping arithmetic of `roll_out` can go wrong. For a window of 65779
      bytes whose oldest byte is 255, with s2 = 0, `roll_out` stores 65476 as s2, while the
      second sum of the bytes that stay is 65251: the sums stop following the window. */
  lemma RollOutWrongPastBase(a: AdlerState)
    requires WellFormed(a) && |a.window| == 65779 && a.window[0] == 255 && a.s2 == 0
    ensures AfterRollOut(a).s2 == 65476
    ensures Tracks(a) ==> Reference(a.window[1..]).b == 65251
    ensures Tracks(a) ==> !Tracks(AfterRollOut(a))
  {
    var d := WrappingSub(BASE, 65779);
    assert d == 4294967038;
    var m := WrappingMul(d, 255);
    assert m == 4294901506;
    assert WrappingAdd(BASE - 1, m) == 4294967026;
    assert 4294967026 % BASE == 65476;
    if Tracks(a) {
      ReferenceDropFirst(a.window);
      assert (BASE - 1 + (BASE - 65779) * 255) % BASE == 65251;
    }
  }

  /** `roll_out` on an empty window only zeroes the counter. */
  lemma RollOutEmpty(a: AdlerState)
    requires WellFormed(a) && a.window == []
    ensures AfterRollOut(a) == a.(count := 0)
  {
  }

  /** `write_bytes` folds its bytes into the sums exactly as rolling them in one at a time does. */
  lemma {:induction false} WriteBytesAgreesWithRolling(a: AdlerState, bytes: seq<u8>)
    requires WellFormed(a)
    ensures SumsOf(AfterWriteBytes(a, bytes)) == RollSums(SumsOf(a), bytes)
    ensures SumsOf(RollInAll(a, bytes)) == RollSums(SumsOf(a), bytes)
    decreases |bytes|
  {
    if bytes != [] {
      var init := bytes[..|bytes| - 1];
      WriteBytesAgreesWithRolling(a, init);
      if |bytes| == 1 {
        assert init == [];
      }
    }
  }

  /** `write_bytes` leaves the window alone and counts every byte, except on a one-byte call,
      which appends that byte to the window and counts it twice. */
  lemma WriteBytesWindowAndCount(a: AdlerState, bytes: seq<u8>)
    requires WellFormed(a)
    ensures |bytes| != 1 ==> AfterWriteBytes(a, bytes).window == a.window
    ensures |bytes| != 1 ==> AfterWriteBytes(a, bytes).count == a.count + |bytes|
    ensures |bytes| == 1 ==> AfterWriteBytes(a, bytes).window == a.window + bytes
    ensures |bytes| == 1 ==> AfterWriteBytes(a, bytes).count == a.count + 2
  {
  }

  /** From `new()`, `write_bytes(bytes)` gives the RFC 1950 checksum of the bytes. */
  lemma FromBytesChecksum(bytes: seq<u8>)
    ensures SumsOf(AfterWriteBytes(Initial(), bytes)) == Reference(bytes)
    ensures Sum32Of(AfterWriteBytes(Initial(), bytes)) == Checksum(bytes)
  {
    WriteBytesAgreesWithRolling(Initial(), bytes);
    RollingMatchesReference(bytes);
  }

  /** The longest window that can slide with its checksum kept: rolling a byte in makes it
      65777 bytes, the most `roll_out` is right for whatever the bytes (`RollOutDropsOldest`). */
  const MAX_SLIDE: nat := 65776

  /** Rolling equivalence: sliding a window of w bytes across a stream (roll one byte in, roll
      the oldest out) keeps the checksum of the current window, provided w <= MAX_SLIDE. */
  lemma SlideKeepsChecksum(a: AdlerState, b: u8)
    requires WellFormed(a) && Tracks(a) && |a.window| <= MAX_SLIDE
    ensures AfterRollOut(AfterRollIn(a, b)).window == (a.window + [b])[1..]
    ensures Tracks(AfterRollOut(AfterRollIn(a, b)))
  {
    RollOutDropsOldest(AfterRollIn(a, b));
  }

  /** The sliding step the scanner performs once its window is full: roll the next byte in,
      then the oldest byte out, for every byte of `bytes` in turn. */
  function SlideAll(a: AdlerState, bytes: seq<u8>): (r: AdlerState)
    requires WellFormed(a)
    ensures WellFormed(r)
  {
    if bytes == [] then a else AfterRollOut(AfterRollIn(SlideAll(a, bytes[..|bytes| - 1]), bytes[|bytes| - 1]))
  }

  /** Rolling the bytes in one at a time from `new()` puts them all in the window and keeps the
      sums those of the window. */
  lemma {:induction false} RollInAllTracks(a: AdlerState, bytes: seq<u8>)
    requires WellFormed(a) && Tracks(a)
    ensures RollInAll(a, bytes).window == a.window + bytes
    ensures Tracks(RollInAll(a, bytes))
    decreases |bytes|
  {
    if bytes != [] {
      var init := bytes[..|bytes| - 1];
      RollInAllTracks(a, init);
      assert a.window + init + [bytes[|bytes| - 1]] == a.window + bytes;
    }
  }

  /** Sliding a window of at most MAX_SLIDE bytes across `bytes`: the window holds the last
      |window| bytes of the stream so far and the sums stay those of the window. */
  lemma {:induction false} SlideAllTracks(a: AdlerState, bytes: seq<u8>)
    requires WellFormed(a) && Tracks(a) && |a.window| <= MAX_SLIDE
    ensures SlideAll(a, bytes).window == (a.window + bytes)[|bytes|..]
    ensures Tracks(SlideAll(a, bytes))
    decreases |bytes|
  {
    if bytes != [] {
      var n := |bytes|;
      var init := bytes[..n - 1];
      SlideAllTracks(a, init);
      var prev := SlideAll(a, init);
      SlideKeepsChecksum(prev, bytes[n - 1]);
      ShiftSnoc(a.window, bytes);
    }
  }

  /** Dropping one more byte from the front after appending one at the back. */
  lemma ShiftSnoc(w: seq<u8>, bytes: seq<u8>)
    requires bytes != []
    ensures ((w + bytes[..|bytes| - 1])[|bytes| - 1..] + [bytes[|bytes| - 1]])[1..] == (w + bytes)[|bytes|..]
  {
    var n := |bytes|;
    assert w + bytes == (w + bytes[..n - 1]) + [bytes[n - 1]];
  }

  /** Rolling equivalence: roll the first w bytes in, then slide k times; the checksum is that of
      the w bytes starting at k, computed from scratch. */
  lemma RollingEquivalence(bytes: seq<u8>, w: nat, k: nat)
    requires w <= MAX_SLIDE && w + k <= |bytes|
    ensures SlideAll(RollInAll(Initial(), bytes[..w]), bytes[w..w + k]).window == bytes[k..k + w]
    ensures Sum32Of(SlideAll(RollInAll(Initial(), bytes[..w]), bytes[w..w + k])) == Checksum(bytes[k..k + w])
  {
    var start := bytes[..w];
    var slid := bytes[w..w + k];
    StartThenSlide(Initial(), start, slid);
    assert start + slid == bytes[..w + k];
    assert (start + slid)[k..] == bytes[k..k + w];
  }

  lemma StartThenSlide(a: AdlerState, start: seq<u8>, slid: seq<u8>)
    requires a == Initial() && |start| <= MAX_SLIDE
    ensures SlideAll(RollInAll(a, start), slid).window == (start + slid)[|slid|..]
    ensures Tracks(SlideAll(RollInAll(a, start), slid))
  {
    RollInAllTracks(a, start);
    assert RollInAll(a, start).window == start;
    SlideAllTracks(RollInAll(a, start), slid);
  }

  /** Pinned checksums of `ut_testVectors_works`. */
  lemma TestVectors()
    ensures Sum32Of(AfterWriteBytes(Initial(), [])) == 0x00000001
    ensures Sum32Of(AfterWriteBytes(Initial(), [97])) == 0x00620062
    ensures Sum32Of(AfterWriteBytes(Initial(), [97, 98, 99])) == 0x024d0127
  {
    FromBytesChecksum([]);
    FromBytesChecksum([97]);
    FromBytesChecksum([97, 98, 99]);
    AbcChecksums();
  }

  /** The RFC 1950 checksums of "", "a" and "abc", from the definition. */
  lemma AbcChecksums()
    ensures Checksum([]) == 0x00000001
    ensures Checksum([97]) == 0x00620062
    ensures Checksum([97, 98, 99]) == 0x024d0127
  {
    assert [97, 98, 99][..2] == [97, 98];
    assert [97, 98][..1] == [97];
    assert [97][..0] == [];
    assert Sum([97, 98, 99]) == 294;
    assert Running(1, [97, 98, 99]) == 589;
  }

  /** 64000 bytes of 0xff: both sums wrap around BASE many times. */
  lemma LongTestVector()
    ensures Sum32Of(AfterWriteBytes(Initial(), Repeat(255, 64000))) == 0xD6251498
  {
    var w := Repeat(255, 64000);
    FromBytesChecksum(w);
    RepeatSums(255, 64000);
    assert Sum(w) == 16320000;
    assert 2 * Running(1, w) == 2 * 64000 + 255 * 4096064000;
    assert Running(1, w) == 522248224000;
    assert Reference(w).a == 5272 by {
      assert 1 + Sum(w) == 249 * BASE + 5272;
    }
    assert Reference(w).b == 54821 by {
      assert Running(1, w) == 7970699 * BASE + 54821;
    }
  }

  // ----------------------------------------------------------------------------------------
  // The unrolled helpers do1 .. do16: each adds its bytes without reducing

  function Do1(s: Sums, bytes: seq<u8>): (r: Sums)
    requires |bytes| >= 1
    ensures r == Accumulate(s, bytes[..1])
  {
    assert bytes[..1][..0] == [];
    Sums(s.a + bytes[0], s.b + s.a + bytes[0])
  }

  function Do2(s: Sums, bytes: seq<u8>): (r: Sums)
    requires |bytes| >= 2
    ensures r == Accumulate(s, bytes[..2])
  {
    AccumulateAppend(s, bytes[0..1], bytes[1..2]);
    assert bytes[..2] == bytes[0..1] + bytes[1..2];
    assert bytes[0..1][..1] == bytes[0..1] && bytes[1..2][..1] == bytes[1..2];
    Do1(Do1(s, bytes[0..1]), bytes[1..2])
  }

  function Do4(s: Sums, bytes: seq<u8>): (r: Sums)
    requires |bytes| >= 4
    ensures r == Accumulate(s, bytes[..4])
  {
    AccumulateAppend(s, bytes[0..2], bytes[2..4]);
    assert bytes[..4] == bytes[0..2] + bytes[2..4];
    assert bytes[0..2][..2] == bytes[0..2] && bytes[2..4][..2] == bytes[2..4];
    Do2(Do2(s, bytes[0..2]), bytes[2..4])
  }

  function Do8(s: Sums, bytes: seq<u8>): (r: Sums)
    requires |bytes| >= 8
    ensures r == Accumulate(s, bytes[..8])
  {
    AccumulateAppend(s, bytes[0..4], bytes[4..8]);
    assert bytes[..8] == bytes[0..4] + bytes[4..8];
    assert bytes[0..4][..4] == bytes[0..4] && bytes[4..8][..4] == bytes[4..8];
    Do4(Do4(s, bytes[0..4]), bytes[4..8])
  }

  function Do16(s: Sums, bytes: seq<u8>): (r: Sums)
    requires |bytes| >= 16
    ensures r == Accumulate(s, bytes[..16])
  {
    AccumulateAppend(s, bytes[0..8], bytes[8..16]);
    assert bytes[..16] == bytes[0..8] + bytes[8..16];
    assert bytes[0..8][..8] == bytes[0..8] && bytes[8..16][..8] == bytes[8..16];
    Do8(Do8(s, bytes[0..8]), bytes[8..16])
  }

  // ----------------------------------------------------------------------------------------
  // The context itself, updated in place

  class Adler32 {
    var s1: u32
    var s2: u32
    var count: nat
    var window: seq<u8>
    var rolledOutByte: u8

    function Value(): AdlerState
      reads this
    {
      AdlerState(s1, s2, count, window, rolledOutByte)
    }

    /** `Adler32::new()`. */
    constructor ()
      ensures Value() == Initial()
    {
      s1, s2 := 1, 0;
      count := 0;
      rolledOutByte := 0;
      window := [];
    }

    /** `Adler32::from_bytes(bytes)`: a new context after `write_bytes(bytes)`. */
    static method FromBytes(bytes: seq<u8>) returns (r: Adler32)
      ensures fresh(r)
      ensures r.Value() == AfterWriteBytes(Initial(), bytes)
    {
      r := new Adler32();
      r.WriteBytes(bytes);
    }

    /** `sum32()`. */
    function Sum32(): (r: u32)
      reads this
      requires WellFormed(Value())
      ensures r == Sum32Of(Value())
    {
      (s2 * 0x10000) % U32_MODULUS + s1
    }

    method RollIn(b: u8)
      requires WellFormed(Value())
      modifies this
      ensures Value() == AfterRollIn(old(Value()), b)
    {
      s1 := (s1 + b) % BASE;
      s2 := (s1 + s2) % BASE;
      window := window + [b];
      count := count + 1;
    }

    method RollOut()
      requires WellFormed(Value())
      modifies this
      ensures Value() == AfterRollOut(old(Value()))
    {
      if |window| == 0 {
        count := 0;
        return;
      }
      var len: u32 := |window| % U32_MODULUS;
      rolledOutByte := window[0];
      window := window[1..];
      var b := rolledOutByte;
      s1 := (s1 + BASE - b) % BASE;
      s2 := WrappingAdd(s2 + BASE - 1, WrappingMul(WrappingSub(BASE, len), b)) % BASE;
      count := count - 1;
    }

    method Reset()
      modifies this
      ensures Value() == AfterReset(old(Value()))
    {
      s1, s2 := 1, 0;
      count := 0;
      window := [];
    }

    /** `write_bytes(bytes)`: a one-byte call goes through `roll_in` and counts the byte once
        more; a call of fewer than 16 bytes adds them one by one and reduces once at the end
        (`AddShort`); a longer call adds blocks of NMAX bytes sixteen at a time, reducing after
        each block (`AddNmaxBlock`), then the rest sixteen at a time and one at a time, reducing
        once more (`AddRemainder`). Every assignment to s1 and s2 is checked to fit in a u32:
        that is the NMAX bound. */
    method WriteBytes(bytes: seq<u8>)
      requires WellFormed(Value())
      modifies this
      ensures Value() == AfterWriteBytes(old(Value()), bytes)
    {
      var len := |bytes|;
      if len == 1 {
        RollIn(bytes[0]);
        count := count + 1;
        return;
      }
      if len < 16 {
        AddShort(bytes);
        return;
      }
      var pos := 0;
      while pos + NMAX <= len
        invariant 0 <= pos <= len
        invariant Sums(s1, s2) == RollSums(old(Sums(s1, s2)), bytes[..pos])
        invariant count == old(count) + pos
        modifies this`s1, this`s2, this`count
      {
        AddNmaxBlock(bytes, pos);
        RollSumsAppend(old(Sums(s1, s2)), bytes[..pos], bytes[pos..pos + NMAX]);
        assert bytes[..pos + NMAX] == bytes[..pos] + bytes[pos..pos + NMAX];
        pos := pos + NMAX;
      }
      if pos < len {
        AddRemainder(bytes, pos);
        RollSumsAppend(old(Sums(s1, s2)), bytes[..pos], bytes[pos..]);
        assert bytes == bytes[..pos] + bytes[pos..];
      } else {
        assert bytes[..pos] == bytes;
      }
    }

    /** Lines 106-119 of write_bytes: fewer than 16 bytes, added one by one; s1 is brought back
        below BASE by one subtraction, s2 by a modulo. */
    method AddShort(bytes: seq<u8>)
      requires WellFormed(Value()) && |bytes| < 16
      modifies this`s1, this`s2, this`count
      ensures Sums(s1, s2) == RollSums(old(Sums(s1, s2)), bytes)
      ensures count == old(count) + |bytes|
    {
      ghost var init := Sums(s1, s2);
      var len := |bytes|;
      var k := 0;
      while k < len
        invariant 0 <= k <= len
        invariant Sums(s1, s2) == Accumulate(init, bytes[0..k])
        invariant count == old(count) + k
      {
        Add1(init, bytes, 0, k);
        s1 := s1 + bytes[k];
        s2 := s2 + s1;
        count := count + 1;
        k := k + 1;
      }
      assert bytes[0..len] == bytes;
      ShortReduction(init, bytes);
      ReduceOnce(s1);
      if s1 >= BASE {
        s1 := s1 - BASE;
      }
      s2 := s2 % BASE;
    }

    /** Lines 126-134 of write_bytes: one block of NMAX bytes, added sixteen at a time with a
        single reduction at the end. */
    method AddNmaxBlock(bytes: seq<u8>, start: nat)
      requires WellFormed(Value()) && start + NMAX <= |bytes|
      modifies this`s1, this`s2, this`count
      ensures Sums(s1, s2) == RollSums(old(Sums(s1, s2)), bytes[start..start + NMAX])
      ensures count == old(count) + NMAX
    {
      ghost var init := Sums(s1, s2);
      var pos := start;
      var end := start + NMAX;
      while pos < end
        invariant start <= pos <= end && Multiple16(end - pos)
        invariant Sums(s1, s2) == Accumulate(init, bytes[start..pos])
        invariant count == old(count) + (pos - start)
      {
        BlockFits(end - pos);
        Add16(init, bytes, start, pos);
        var r := Do16(Sums(s1, s2), bytes[pos..pos + 16]);
        assert r == Accumulate(init, bytes[start..pos + 16]);
        s1, s2 := r.a, r.b;
        pos := pos + 16;
        count := count + 16;
      }
      ghost var acc := Sums(s1, s2);
      assert acc == Accumulate(init, bytes[start..start + NMAX]);
      RollSumsIsReducedAccumulate(init, bytes[start..start + NMAX]);
      s1 := s1 % BASE;
      s2 := s2 % BASE;
      assert Sums(s1, s2) == Reduce(acc);
    }

    /** Lines 138-153 of write_bytes: the last bytes, fewer than NMAX, sixteen at a time and then
        one at a time, with a single reduction at the end. */
    method AddRemainder(bytes: seq<u8>, start: nat)
      requires WellFormed(Value()) && start < |bytes| < start + NMAX
      modifies this`s1, this`s2, this`count
      ensures Sums(s1, s2) == RollSums(old(Sums(s1, s2)), bytes[start..])
      ensures count == old(count) + (|bytes| - start)
    {
      ghost var init := Sums(s1, s2);
      var len := |bytes|;
      var pos := start;
      while len - pos >= 16
        invariant start <= pos <= len
        invariant Sums(s1, s2) == Accumulate(init, bytes[start..pos])
        invariant count == old(count) + (pos - start)
      {
        Add16(init, bytes, start, pos);
        var r := Do16(Sums(s1, s2), bytes[pos..pos + 16]);
        assert r == Accumulate(init, bytes[start..pos + 16]);
        s1, s2 := r.a, r.b;
        pos := pos + 16;
        count := count + 16;
      }
      AddBytewise(init, bytes, start, pos);
    }

    /** The byte-at-a-time end of lines 138-153 of write_bytes and the reduction after it. */
    method AddBytewise(ghost init: Sums, bytes: seq<u8>, start: nat, from: nat)
      requires Reduced(init) && start <= from <= |bytes| < start + NMAX
      requires Sums(s1, s2) == Accumulate(init, bytes[start..from])
      modifies this`s1, this`s2, this`count
      ensures Sums(s1, s2) == RollSums(init, bytes[start..])
      ensures count == old(count) + (|bytes| - from)
    {
      var len := |bytes|;
      var pos := from;
      while len - pos > 0
        invariant from <= pos <= len
        invariant Sums(s1, s2) == Accumulate(init, bytes[start..pos])
        invariant count == old(count) + (pos - from)
      {
        Add1(init, bytes, start, pos);
        s1 := s1 + bytes[pos];
        s2 := s2 + s1;
        assert Sums(s1, s2) == Accumulate(init, bytes[start..pos + 1]);
        pos := pos + 1;
        count := count + 1;
      }
      assert bytes[start..pos] == bytes[start..];
      ghost var acc := Sums(s1, s2);
      RollSumsIsReducedAccumulate(init, bytes[start..]);
      s1 := s1 % BASE;
      s2 := s2 % BASE;
      assert Sums(s1, s2) == Reduce(acc);
    }
  }

  // ----------------------------------------------------------------------------------------
  // Steps of the proof of WriteBytes

  /** Sixteen more bytes of a block still fit: the new sums are the accumulation so far
      extended by those bytes, and both are below 2^32. */
  predicate Multiple16(n: int)
  {
    n % 16 == 0
  }

  /** A positive multiple of 16 has room for one more block of 16. */
  lemma BlockFits(n: int)
    requires 0 < n && Multiple16(n)
    ensures 16 <= n && Multiple16(n - 16)
  {
  }

  lemma Add16(start: Sums, bytes: seq<u8>, blockStart: nat, pos: nat)
    requires Reduced(start) && blockStart <= pos && pos + 16 <= |bytes| && pos + 16 - blockStart <= NMAX
    ensures Do16(Accumulate(start, bytes[blockStart..pos]), bytes[pos..pos + 16])
         == Accumulate(start, bytes[blockStart..pos + 16])
    ensures 0 <= Accumulate(start, bytes[blockStart..pos + 16]).a < U32_MODULUS
    ensures 0 <= Accumulate(start, bytes[blockStart..pos + 16]).b < U32_MODULUS
  {
    var block := bytes[pos..pos + 16];
    assert block[..16] == block;
    assert bytes[blockStart..pos + 16] == bytes[blockStart..pos] + block;
    AccumulateAppend(start, bytes[blockStart..pos], block);
    NmaxBound(start, bytes[blockStart..pos + 16]);
  }

  /** Fewer than 16 bytes leave s1 below 2 * BASE, so one subtraction reduces it; reducing both
      sums then gives the rolled sums. */
  lemma ShortReduction(init: Sums, bytes: seq<u8>)
    requires Reduced(init) && |bytes| < 16
    ensures Accumulate(init, bytes).a < 2 * BASE
    ensures RollSums(init, bytes) == Reduce(Accumulate(init, bytes))
  {
    NmaxBound(init, bytes);
    RollSumsIsReducedAccumulate(init, bytes);
  }

  lemma ReduceOnce(x: int)
    requires 0 <= x < 2 * BASE
    ensures (if x >= BASE then x - BASE else x) == x % BASE
  {
  }

  lemma Add1(start: Sums, bytes: seq<u8>, blockStart: nat, pos: nat)
    requires Reduced(start) && blockStart <= pos < |bytes| && pos + 1 - blockStart <= NMAX
    ensures AccStep(Accumulate(start, bytes[blockStart..pos]), bytes[pos])
         == Accumulate(start, bytes[blockStart..pos + 1])
    ensures 0 <= Accumulate(start, bytes[blockStart..pos + 1]).a < U32_MODULUS
    ensures 0 <= Accumulate(start, bytes[blockStart..pos + 1]).b < U32_MODULUS
  {
    assert bytes[blockStart..pos + 1][..pos - blockStart] == bytes[blockStart..pos];
    NmaxBound(start, bytes[blockStart..pos + 1]);
  }
}
