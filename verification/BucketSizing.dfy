/** Bucket-table sizing at compaction: the bit-smearing round-up to a power of two. */
module BucketSizing {
  import opened Bytes

  const DEFAULT_BUCKETS: nat := 0x10_0000

  function Pow2(k: nat): (p: nat)
    ensures p >= 1
  {
    if k == 0 then 1 else 2 * Pow2(k - 1)
  }

  /** `x >> i` on a non-negative value. */
  function Shr(x: nat, i: nat): nat {
    if i == 0 then x else Shr(x / 2, i - 1)
  }

  /** `x | y`, bit by bit. */
  function Or(x: nat, y: nat): nat {
    if x == 0 then y
    else if y == 0 then x
    else 2 * Or(x / 2, y / 2) + (if x % 2 == 1 || y % 2 == 1 then 1 else 0)
  }

  ghost predicate IsPow2(b: nat) { exists k: nat :: b == Pow2(k) }

  /** `b` is the least power of two that is at least `need`. */
  ghost predicate LeastPow2(b: nat, need: nat) {
    && IsPow2(b)
    && need <= b
    && forall k: nat :: need <= Pow2(k) ==> b <= Pow2(k)
  }

  /** Of the `w` low bits of `x`, the `i` highest are ones; no bit lies above them. */
  ghost predicate TopOnes(x: nat, w: nat, i: nat)
    requires i <= w
  {
    Pow2(w) <= x + Pow2(w - i) && x < Pow2(w)
  }

  lemma {:induction false} ShrTopOnes(x: nat, w: nat, i: nat, j: nat)
    requires j <= i <= w && TopOnes(x, w, i)
    ensures w - j <= i ==> Shr(x, j) == Pow2(w - j) - 1
  {
    if w - j <= i {
      if j > 0 {
        ShrTopOnes(x / 2, w - 1, if i < w then i else i - 1, j - 1);
      } else {
        assert i == w;
      }
    }
  }

  lemma {:induction false} OrOnes(x: nat, w: nat, i: nat)
    requires i <= w && TopOnes(x, w, w - i)
    ensures Or(x, Pow2(i) - 1) == Pow2(w) - 1
  {
    if i > 0 {
      OrOnes(x / 2, w - 1, i - 1);
      assert (Pow2(i) - 1) / 2 == Pow2(i - 1) - 1;
    }
  }

  lemma {:induction false} ShrHalf(x: nat, i: nat)
    ensures Shr(x, i) / 2 == Shr(x / 2, i)
  {
    if i > 0 {
      ShrHalf(x / 2, i - 1);
    }
  }

  lemma {:induction false} ShrZero(x: nat, w: nat, i: nat)
    requires w <= i && x < Pow2(w)
    ensures Shr(x, i) == 0
  {
    if w > 0 {
      ShrZero(x / 2, w - 1, i - 1);
    } else if i > 0 {
      ShrZero(0, 0, i - 1);
    }
  }

  /** One smearing step doubles the run of ones under the top bit. */
  lemma {:induction false} SmearStep(x: nat, w: nat, i: nat)
    requires 1 <= i <= w && TopOnes(x, w, i)
    ensures TopOnes(Or(x, Shr(x, i)), w, if 2 * i <= w then 2 * i else w)
    decreases w
  {
    if w <= 2 * i {
      ShrTopOnes(x, w, i, i);
      OrOnes(x, w, w - i);
    } else {
      SmearStep(x / 2, w - 1, i);
      ShrHalf(x, i);
    }
  }

  lemma {:induction false} BitLength(x: nat) returns (w: nat)
    requires x > 0
    ensures 1 <= w && TopOnes(x, w, 1)
    ensures forall k: nat :: x < Pow2(k) ==> w <= k
  {
    if x == 1 {
      w := 1;
    } else {
      w := BitLength(x / 2);
      w := w + 1;
      forall k: nat | x < Pow2(k) ensures w <= k {
        assert x / 2 < Pow2(k - 1);
      }
    }
  }

  lemma {:induction false} Pow2Monotone(a: nat, b: nat)
    requires a <= b
    ensures Pow2(a) <= Pow2(b)
  {
    if a < b {
      Pow2Monotone(a, b - 1);
    }
  }

  lemma Sixteenfold(k: nat)
    ensures Pow2(k + 4) == 16 * Pow2(k)
  {
    assert Pow2(k + 4) == 2 * Pow2(k + 3) == 4 * Pow2(k + 2) == 8 * Pow2(k + 1);
  }

  lemma Landmarks()
    ensures Pow2(20) == DEFAULT_BUCKETS && Pow2(59) == 0x800_0000_0000_0000
    ensures Pow2(63) == TWO_63 && Pow2(64) == TWO_64
  {
    assert Pow2(0) == 1;
    Sixteenfold(0); Sixteenfold(4); Sixteenfold(8); Sixteenfold(12); Sixteenfold(16);
    Sixteenfold(20); Sixteenfold(24); Sixteenfold(28); Sixteenfold(32); Sixteenfold(36);
    Sixteenfold(40); Sixteenfold(44); Sixteenfold(48); Sixteenfold(52); Sixteenfold(56);
    assert Pow2(60) == 2 * Pow2(59);
    assert Pow2(63) == 2 * Pow2(62) == 4 * Pow2(61) == 8 * Pow2(60);
    assert Pow2(64) == 2 * Pow2(63);
  }

  /** `uint64(estEntries) * 2`, wrapping. */
  function Doubled(estEntries: Int64): Uint64 { (ToUint64(estEntries) * 2) % TWO_64 }

  /**
   The bucket count a compaction chooses for an entry-count estimate, for every 64-bit counter value: the least power of
   two not below the doubled count, unless that power does not fit 64 bits, in which case the sum wraps to 0.
   */
  method NewBucketCount(estEntries: Int64) returns (newBuckets: nat)
    ensures var need := Doubled(estEntries);
            && (need <= DEFAULT_BUCKETS ==> newBuckets == DEFAULT_BUCKETS)
            && (DEFAULT_BUCKETS < need <= TWO_63 ==> LeastPow2(newBuckets, need))
            && (need > TWO_63 ==> newBuckets == 0)
    ensures 0 <= estEntries < 0x400_0000_0000_0000 ==> DEFAULT_BUCKETS <= newBuckets <= 0x800_0000_0000_0000
  {
    newBuckets := DEFAULT_BUCKETS;
    var need := Doubled(estEntries);
    if need > newBuckets {
      ghost var w;
      newBuckets, w := Smear(need - 1);
      RoundedUp(need, w);
      newBuckets := (newBuckets + 1) % TWO_64;
    }
  }

  /** The bucket count compaction chooses. */
  ghost predicate Sized(n: nat, count: nat) {
    if 2 * count <= DEFAULT_BUCKETS then n == DEFAULT_BUCKETS else LeastPow2(n, 2 * count)
  }

  /** For any count an index file can hold, doubling does not wrap. */
  method BucketsFor(count: nat) returns (n: nat)
    requires count < 0x400_0000_0000_0000
    ensures Sized(n, count) && DEFAULT_BUCKETS <= n <= 0x800_0000_0000_0000
  {
    n := NewBucketCount(count);
  }

  /** `Pow2(w)` is the least power of two above `x`. */
  ghost predicate Tops(x: nat, w: nat) {
    x < Pow2(w) && forall k: nat :: x < Pow2(k) ==> w <= k
  }

  /** The smearing loop turns a number into all ones below its top bit. */
  method Smear(x: nat) returns (r: nat, ghost w: nat)
    requires 0 < x < TWO_64
    ensures Tops(x, w) && r == Pow2(w) - 1
    ensures x < 0x800_0000_0000_0000 ==> r < 0x800_0000_0000_0000
    ensures if x < TWO_63 then r < TWO_63 else r == TWO_64 - 1
  {
    w := BitLength(x);
    TopBounds(x, w);
    r := x;
    var i: int := 1;
    ghost var ones := 1;
    while i < 64
      invariant 1 <= i && ones == if i <= w then i else w
      invariant TopOnes(r, w, ones)
      decreases 64 - i
    {
      if i <= w {
        SmearStep(r, w, i);
      } else {
        ShrZero(r, w, i);
      }
      r := Or(r, Shr(r, i));
      i := 2 * i;
      ones := if i <= w then i else w;
    }
  }

  lemma TopsNotAbove(x: nat, w: nat, k: nat)
    requires Tops(x, w)
    ensures if x < Pow2(k) then w <= k && Pow2(w) <= Pow2(k) else w > k && Pow2(k) <= Pow2(w)
  {
    if x < Pow2(k) {
      Pow2Monotone(w, k);
    } else if w <= k {
      Pow2Monotone(w, k);
    } else {
      Pow2Monotone(k, w);
    }
  }

  lemma TopBounds(x: nat, w: nat)
    requires x < TWO_64 && Tops(x, w)
    ensures w <= 64
    ensures x < 0x800_0000_0000_0000 ==> Pow2(w) <= 0x800_0000_0000_0000
    ensures if x < TWO_63 then Pow2(w) <= TWO_63 else Pow2(w) == TWO_64
  {
    Landmarks();
    TopsNotAbove(x, w, 59);
    TopsNotAbove(x, w, 63);
    TopsNotAbove(x, w, 64);
  }

  /** The least power of two above `need - 1` is the least one not below `need`. */
  lemma RoundedUp(need: nat, w: nat)
    requires need > 0 && Tops(need - 1, w)
    ensures LeastPow2(Pow2(w), need)
  {
    forall k: nat | need <= Pow2(k) ensures Pow2(w) <= Pow2(k) {
      Pow2Monotone(w, k);
    }
  }
}
