/**
 * The arithmetic of the Adler-32 checksum (section 2.2 of RFC 1950, with the reference code of
 * section 9): the reference definition of the two sums, the byte-at-a-time reduced update
 * performed by `roll_in`, and the unreduced update performed by the `do1` .. `do16` helpers
 * of `write_bytes`, with the theorems that tie the three together.
 */
module AdlerSpec {
  import opened Types

  /** The largest prime below 2^16 (src/hashing/adler.rs:9). */
  const BASE: int := 65521
  /** The largest n with 255n(n+1)/2 + (n+1)(BASE-1) <= 2^32-1 (src/hashing/adler.rs:11). */
  const NMAX: int := 5552

  /** The pair (s1, s2), as unbounded integers; the machine width is imposed by the callers. */
  datatype Sums = Sums(a: int, b: int)

  /** Both sums already reduced modulo BASE. */
  predicate Reduced(s: Sums)
  {
    0 <= s.a < BASE && 0 <= s.b < BASE
  }

  /** D1 + D2 + ... + Dn. */
  function Sum(w: seq<u8>): nat
  {
    if w == [] then 0 else Sum(w[..|w| - 1]) + w[|w| - 1]
  }

  /** (a + D1) + (a + D1 + D2) + ... + (a + D1 + ... + Dn): the total of the running first sums
      when the first sum starts at `a`. */
  function Running(a: int, w: seq<u8>): int
  {
    if w == [] then 0 else Running(a, w[..|w| - 1]) + a + Sum(w)
  }

  /** RFC 1950: A = 1 + D1 + ... + Dn and B = (1 + D1) + (1 + D1 + D2) + ... + (1 + D1 + ... + Dn),
      both modulo 65521. */
  function Reference(w: seq<u8>): (s: Sums)
    ensures Reduced(s)
  {
    Sums((1 + Sum(w)) % BASE, Running(1, w) % BASE)
  }

  /** The 32-bit checksum of RFC 1950: B in the high half, A in the low half. */
  function Checksum(w: seq<u8>): u32
  {
    Reference(w).b * 0x10000 + Reference(w).a
  }

  /** One byte folded in as `roll_in` does it: each sum is reduced at once. */
  function RollStep(s: Sums, x: u8): Sums
  {
    var a := (s.a + x) % BASE;
    Sums(a, (a + s.b) % BASE)
  }

  /** `roll_in` applied to every byte of `w` in order. */
  function RollSums(s: Sums, w: seq<u8>): Sums
  {
    if w == [] then s else RollStep(RollSums(s, w[..|w| - 1]), w[|w| - 1])
  }

  /** One byte folded in as `do1` does it: no reduction. */
  function AccStep(s: Sums, x: u8): Sums
  {
    Sums(s.a + x, s.b + s.a + x)
  }

  /** `do1` applied to every byte of `w` in order. */
  function Accumulate(s: Sums, w: seq<u8>): Sums
  {
    if w == [] then s else AccStep(Accumulate(s, w[..|w| - 1]), w[|w| - 1])
  }

  function Reduce(s: Sums): (r: Sums)
    ensures Reduced(r)
  {
    Sums(s.a % BASE, s.b % BASE)
  }

  // ----------------------------------------------------------------------------------------
  // Sums seen from the front of the sequence

  lemma {:induction false} SumFront(x: u8, v: seq<u8>)
    ensures Sum([x] + v) == x + Sum(v)
    decreases |v|
  {
    if v != [] {
      var w := [x] + v;
      assert w[..|w| - 1] == [x] + v[..|v| - 1];
      SumFront(x, v[..|v| - 1]);
    }
  }

  lemma {:induction false} SumAppend(u: seq<u8>, v: seq<u8>)
    ensures Sum(u + v) == Sum(u) + Sum(v)
    decreases |v|
  {
    if v == [] {
      assert u + v == u;
    } else {
      assert (u + v)[..|u + v| - 1] == u + v[..|v| - 1];
      SumAppend(u, v[..|v| - 1]);
    }
  }

  /** Dropping the first byte x: the running totals restart from a + x. */
  lemma {:induction false} RunningFront(a: int, x: u8, v: seq<u8>)
    ensures Running(a, [x] + v) == a + x + Running(a + x, v)
    decreases |v|
  {
    var w := [x] + v;
    if v == [] {
      assert w[..|w| - 1] == [];
      assert Sum(w) == x by { SumFront(x, []); }
    } else {
      var v' := v[..|v| - 1];
      assert w[..|w| - 1] == [x] + v';
      RunningFront(a, x, v');
      SumFront(x, v);
    }
  }

  /** Starting the first sum d higher adds d to each of the |v| running totals. */
  lemma {:induction false} RunningShift(a: int, d: int, v: seq<u8>)
    ensures Running(a + d, v) == Running(a, v) + |v| * d
    decreases |v|
  {
    if v != [] {
      RunningShift(a, d, v[..|v| - 1]);
    }
  }

  lemma {:induction false} RunningAppend(a: int, u: seq<u8>, v: seq<u8>)
    ensures Running(a, u + v) == Running(a, u) + Running(a + Sum(u), v)
    decreases |v|
  {
    if v == [] {
      assert u + v == u;
    } else {
      var v' := v[..|v| - 1];
      assert (u + v)[..|u + v| - 1] == u + v';
      RunningAppend(a, u, v');
      SumAppend(u, v);
    }
  }

  // ----------------------------------------------------------------------------------------
  // The unreduced accumulation of do1..do16 in closed form

  lemma {:induction false} AccumulateClosedForm(s: Sums, w: seq<u8>)
    ensures Accumulate(s, w) == Sums(s.a + Sum(w), s.b + Running(s.a, w))
    decreases |w|
  {
    if w != [] {
      AccumulateClosedForm(s, w[..|w| - 1]);
    }
  }

  lemma {:induction false} AccumulateAppend(s: Sums, u: seq<u8>, v: seq<u8>)
    ensures Accumulate(s, u + v) == Accumulate(Accumulate(s, u), v)
    decreases |v|
  {
    if v == [] {
      assert u + v == u;
    } else {
      var v' := v[..|v| - 1];
      assert (u + v)[..|u + v| - 1] == u + v';
      AccumulateAppend(s, u, v');
    }
  }

  lemma {:induction false} RollSumsAppend(s: Sums, u: seq<u8>, v: seq<u8>)
    ensures RollSums(s, u + v) == RollSums(RollSums(s, u), v)
    decreases |v|
  {
    if v == [] {
      assert u + v == u;
    } else {
      var v' := v[..|v| - 1];
      assert (u + v)[..|u + v| - 1] == u + v';
      RollSumsAppend(s, u, v');
    }
  }

  lemma ModAddLeft(x: int, y: int)
    ensures (x % BASE + y) % BASE == (x + y) % BASE
  {
    var q := x / BASE;
    assert x == q * BASE + x % BASE;
    assert x + y == (x % BASE + y) + q * BASE;
  }

  /** Reducing after every byte (roll_in) or once at the end (the do-helpers followed by `%=`)
      gives the same pair: the deferred modulo of `write_bytes` is sound. */
  lemma {:induction false} RollSumsIsReducedAccumulate(s: Sums, w: seq<u8>)
    requires Reduced(s)
    ensures RollSums(s, w) == Reduce(Accumulate(s, w))
    decreases |w|
  {
    if w != [] {
      var v := w[..|w| - 1];
      var x := w[|w| - 1];
      RollSumsIsReducedAccumulate(s, v);
      assert RollSums(s, w) == RollStep(RollSums(s, v), x);
      assert Accumulate(s, w) == AccStep(Accumulate(s, v), x);
      StepOfReduced(Accumulate(s, v), x);
    }
  }

  /** Reducing before a byte is rolled in gives what reducing afterwards gives. */
  lemma StepOfReduced(acc: Sums, x: u8)
    ensures RollStep(Reduce(acc), x) == Reduce(AccStep(acc, x))
  {
    ModAddLeft(acc.a, x);
    var a' := (acc.a + x) % BASE;
    calc {
      RollStep(Reduce(acc), x).b;
      (a' + acc.b % BASE) % BASE;
      { ModAddLeft(acc.b, a'); }
      (acc.b + a') % BASE;
      { ModAddLeft(acc.a + x, acc.b); }
      (acc.b + acc.a + x) % BASE;
    }
  }

  /** Rolling bytes in one at a time from the initial state (1, 0) computes the checksum
      of RFC 1950. */
  lemma RollingMatchesReference(w: seq<u8>)
    ensures RollSums(Sums(1, 0), w) == Reference(w)
  {
    RollSumsIsReducedAccumulate(Sums(1, 0), w);
    AccumulateClosedForm(Sums(1, 0), w);
  }

  /** One more byte rolled in extends the reference checksum. */
  lemma ReferenceAppend(w: seq<u8>, x: u8)
    ensures RollStep(Reference(w), x) == Reference(w + [x])
  {
    RollingMatchesReference(w);
    RollingMatchesReference(w + [x]);
    assert (w + [x])[..|w + [x]| - 1] == w;
  }

  lemma ModAddMultiple(y: int, k: int)
    ensures (y + BASE * k) % BASE == y % BASE
  {
    var q := y / BASE;
    assert y == q * BASE + y % BASE;
    assert y + BASE * k == (q + k) * BASE + y % BASE;
  }

  lemma DropFirstAlgebra(r: int, rv: int, x: int, n: int)
    requires r == 1 + x + rv + (n - 1) * x
    ensures r + BASE - 1 + (BASE - n) * x == rv + BASE * (1 + x)
  {
  }

  /** The reduced update of `roll_out`: removing the oldest byte x of a window of n bytes
      subtracts x from A and n*x + 1 from B (valid whatever n is; the machine form of
      `roll_out` adds the guard n <= BASE). */
  lemma ReferenceDropFirst(w: seq<u8>)
    requires w != []
    ensures Reference(w[1..]).a == (Reference(w).a + BASE - w[0]) % BASE
    ensures Reference(w[1..]).b == (Reference(w).b + BASE - 1 + (BASE - |w|) * w[0]) % BASE
  {
    var x, v := w[0], w[1..];
    assert w == [x] + v;
    SumFront(x, v);
    RunningFront(1, x, v);
    RunningShift(1, x, v);
    var n := |w|;
    ModAddLeft(1 + Sum(w), BASE - x);
    ModAddMultiple(1 + Sum(v), 1);
    DropFirstAlgebra(Running(1, w), Running(1, v), x, n);
    ModAddLeft(Running(1, w), BASE - 1 + (BASE - n) * x);
    ModAddMultiple(Running(1, v), 1 + w[0] as int);
  }

  // ----------------------------------------------------------------------------------------
  // Overflow bounds behind NMAX

  lemma {:induction false} SumBound(w: seq<u8>)
    ensures Sum(w) <= 255 * |w|
    decreases |w|
  {
    if w != [] {
      SumBound(w[..|w| - 1]);
    }
  }

  lemma {:induction false} RunningBound(a: int, w: seq<u8>)
    requires a >= 0
    ensures 0 <= Running(a, w)
    ensures 2 * Running(a, w) <= 2 * (|w| * a) + 255 * (|w| * (|w| + 1))
    decreases |w|
  {
    if w != [] {
      var n := |w|;
      RunningBound(a, w[..n - 1]);
      SumBound(w);
      assert (n - 1) * a + a == n * a;
      assert (n - 1) * n + 2 * n == n * (n + 1);
    }
  }

  lemma MulLe(x: int, y: int, c: int)
    requires 0 <= x && 0 <= c && y <= c
    ensures x * y <= x * c
  {
  }

  lemma MulMonotone(k: nat, m: nat)
    requires k <= m
    ensures k * (k + 1) <= m * (m + 1)
  {
    assert k * (k + 1) <= k * (m + 1);
    assert k * (m + 1) <= m * (m + 1);
  }

  lemma NmaxArithmetic(sa: int, sb: int, k: int, r: int)
    requires 0 <= sa < BASE && 0 <= sb < BASE && 0 <= k <= NMAX
    requires 0 <= r && 2 * r <= 2 * (k * sa) + 255 * (k * (k + 1))
    ensures sb + r < U32_MODULUS
  {
    var p := k * (k + 1);
    MulMonotone(k, NMAX);
    assert p <= 30830256;
    var q := k * sa;
    MulLe(k, sa, BASE - 1);
    MulLe(BASE - 1, k, NMAX);
    assert q <= 363767040;
    assert 2 * r <= 2 * q + 255 * p;
  }

  /** After k <= NMAX unreduced steps from reduced sums, both sums still fit in a u32. */
  lemma NmaxBound(s: Sums, w: seq<u8>)
    requires Reduced(s) && |w| <= NMAX
    ensures 0 <= Accumulate(s, w).a <= BASE - 1 + 255 * |w|
    ensures 0 <= Accumulate(s, w).b < U32_MODULUS
  {
    AccumulateClosedForm(s, w);
    SumBound(w);
    RunningBound(s.a, w);
    NmaxArithmetic(s.a, s.b, |w|, Running(s.a, w));
  }

  // ----------------------------------------------------------------------------------------
  // A run of equal bytes, for the pinned test vector of 64000 bytes 0xFF

  function Repeat(c: u8, n: nat): (r: seq<u8>)
    ensures |r| == n && forall i :: 0 <= i < n ==> r[i] == c
  {
    if n == 0 then [] else Repeat(c, n - 1) + [c]
  }

  lemma {:induction false} RepeatSums(c: u8, n: nat)
    ensures Sum(Repeat(c, n)) == n * c
    ensures 2 * Running(1, Repeat(c, n)) == 2 * n + c * (n * (n + 1))
    decreases n
  {
    if n > 0 {
      var r := Repeat(c, n);
      assert r[..n - 1] == Repeat(c, n - 1);
      RepeatSums(c, n - 1);
      assert (n - 1) * c + c == n * c;
      RepeatAlgebra(c, n);
    }
  }

  lemma RepeatAlgebra(c: int, n: int)
    ensures 2 * (n - 1) + c * ((n - 1) * n) + 2 + 2 * (n * c) == 2 * n + c * (n * (n + 1))
  {
    assert (n - 1) * n + 2 * n == n * (n + 1);
    assert c * ((n - 1) * n) + c * (2 * n) == c * ((n - 1) * n + 2 * n);
  }
}
