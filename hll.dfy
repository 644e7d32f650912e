/**
 * The bucket-update half of the HyperLogLog estimator of src/hll.rs.
 *
 * Integers are mathematical: a u64 hash is a `Hash64` (a nat below 2^64) and
 * the shift `hash >> s` is `ShiftRight(hash, s)`, halving s times. The
 * hasher (`DefaultHasher`) is not visible, so the estimator receives the hash
 * as a total function fixed at construction.
 */
module Hll {

  /** 2^n. */
  function Pow2(n: nat): (r: nat)
    ensures r >= 1
  {
    if n == 0 then 1 else 2 * Pow2(n - 1)
  }

  /** Bits in a hash value: BITSET_CAPACITY of hll.rs. */
  const BitsetCapacity: nat := 64

  /** A u64 hash value. */
  type Hash64 = h: nat | h < Pow2(64)

  function Max(a: nat, b: nat): nat
  {
    if a >= b then a else b
  }

  lemma {:induction false} Pow2Monotone(a: nat, b: nat)
    ensures a < b <==> Pow2(a) < Pow2(b)
    decreases a + b
  {
    if a > 0 && b > 0 {
      Pow2Monotone(a - 1, b - 1);
    }
  }

  // ---------------------------------------------------------------------------
  // Rank: the bit length of the whole hash (hll.rs:62-70)
  // ---------------------------------------------------------------------------

  /** `leading_zeros` of a w-bit word: the zero bits above its highest set bit. */
  function LeadingZeros(h: nat, w: nat): (z: nat)
    requires h < Pow2(w)
    ensures z <= w
  {
    if w == 0 then 0
    else if h >= Pow2(w - 1) then 0
    else 1 + LeadingZeros(h, w - 1)
  }

  /** What `w - leading_zeros` means: the width of h's significant bits. */
  lemma {:induction false} SignificantBits(h: nat, w: nat)
    requires h < Pow2(w)
    ensures var r := w - LeadingZeros(h, w);
      && (r == 0 <==> h == 0)
      && (h > 0 ==> Pow2(r - 1) <= h < Pow2(r))
  {
    if w > 0 && h < Pow2(w - 1) {
      SignificantBits(h, w - 1);
    }
  }

  /**
   * `compute_binary`: the hash is its own binary representation, so the rank
   * taken of it is the bit length of the hash itself.
   */
  function ComputeBinary(h: Hash64): (b: Hash64)
    ensures PositionOfLeftmostOne(b) == BitLength(h)
  {
    RankIsBitLength(h);
    h
  }

  /**
   * `position_of_leftmost_one`: 64 minus the leading zeros of the 64-bit
   * word, i.e. the number of significant bits of the whole hash.
   */
  function PositionOfLeftmostOne(h: Hash64): (r: nat)
    ensures r <= BitsetCapacity
    ensures r == 0 <==> h == 0
    ensures h > 0 ==> Pow2(r - 1) <= h < Pow2(r)
  {
    SignificantBits(h, BitsetCapacity);
    BitsetCapacity - LeadingZeros(h, BitsetCapacity)
  }

  /** The textbook bit length, halving until nothing is left. */
  function BitLength(h: nat): nat
  {
    if h == 0 then 0 else 1 + BitLength(h / 2)
  }

  lemma {:induction false} BitLengthBrackets(h: nat)
    requires h > 0
    ensures Pow2(BitLength(h) - 1) <= h < Pow2(BitLength(h))
  {
    if h > 1 {
      BitLengthBrackets(h / 2);
    }
  }

  /** The rank stored by add_elem is exactly the bit length of the hash. */
  lemma RankIsBitLength(h: Hash64)
    ensures PositionOfLeftmostOne(h) == BitLength(h)
  {
    var r := PositionOfLeftmostOne(h);
    if h > 0 {
      var b := BitLength(h);
      BitLengthBrackets(h);
      Pow2Monotone(r, b);
      Pow2Monotone(b, r);
      Pow2Monotone(r - 1, b);
      Pow2Monotone(b - 1, r);
    }
  }

  // ---------------------------------------------------------------------------
  // Bucket index: the top nBits bits (hll.rs:39)
  // ---------------------------------------------------------------------------

  /** `h >> s` on an unbounded integer. */
  function ShiftRight(h: nat, s: nat): nat
  {
    if s == 0 then h else ShiftRight(h / 2, s - 1)
  }

  lemma {:induction false} ShiftRightBelow(h: nat, s: nat, w: nat)
    requires s <= w && h < Pow2(w)
    ensures ShiftRight(h, s) < Pow2(w - s)
  {
    if s > 0 {
      ShiftRightBelow(h / 2, s - 1, w - 1);
    }
  }

  lemma {:induction false} ShiftRightPositive(h: nat, s: nat)
    requires ShiftRight(h, s) >= 1
    ensures h >= Pow2(s)
  {
    if s > 0 {
      ShiftRightPositive(h / 2, s - 1);
    }
  }

  /**
   * `hash >> (BITSET_CAPACITY - n_bits)`. The shift amount must be below 64
   * (n_bits = 0 shifts by 64 and panics) and the subtraction must not
   * underflow, hence 1 <= nBits <= 64; the index then addresses one of the
   * 2^nBits buckets.
   */
  function BucketIndex(h: Hash64, nBits: nat): (i: nat)
    requires 1 <= nBits <= BitsetCapacity
    ensures i < Pow2(nBits)
  {
    ShiftRightBelow(h, BitsetCapacity - nBits, BitsetCapacity);
    ShiftRight(h, BitsetCapacity - nBits)
  }

  /**
   * Index and rank come from the same hash, so any bucket other than the
   * first only ever receives ranks above 64 - nBits.
   */
  lemma IndexBoundsRank(h: Hash64, nBits: nat)
    requires 1 <= nBits <= BitsetCapacity
    ensures BucketIndex(h, nBits) >= 1 ==> PositionOfLeftmostOne(h) > BitsetCapacity - nBits
  {
    var r := PositionOfLeftmostOne(h);
    if BucketIndex(h, nBits) >= 1 {
      ShiftRightPositive(h, BitsetCapacity - nBits);
      Pow2Monotone(BitsetCapacity - nBits, r);
    }
  }

  // ---------------------------------------------------------------------------
  // Bucket state as a value: one add and a stream of adds
  // ---------------------------------------------------------------------------

  /** The bucket array after add_elem has seen a value hashing to h. */
  function AddHash(b: seq<nat>, nBits: nat, h: Hash64): (r: seq<nat>)
    requires 1 <= nBits <= BitsetCapacity && |b| == Pow2(nBits)
    ensures |r| == |b|
    ensures forall i :: 0 <= i < |b| ==> b[i] <= r[i]
    ensures forall i :: 0 <= i < |b| && i != BucketIndex(h, nBits) ==> r[i] == b[i]
    ensures r[BucketIndex(h, nBits)] == Max(b[BucketIndex(h, nBits)], PositionOfLeftmostOne(h))
  {
    var rank := PositionOfLeftmostOne(ComputeBinary(h));
    var index := BucketIndex(h, nBits);
    b[index := Max(b[index], rank)]
  }

  /** Adding the same hash a second time changes nothing. */
  lemma AddHashIdempotent(b: seq<nat>, nBits: nat, h: Hash64)
    requires 1 <= nBits <= BitsetCapacity && |b| == Pow2(nBits)
    ensures AddHash(AddHash(b, nBits, h), nBits, h) == AddHash(b, nBits, h)
  {
    var once := AddHash(b, nBits, h);
    var twice := AddHash(once, nBits, h);
    assert forall i :: 0 <= i < |b| ==> twice[i] == once[i];
  }

  /** Two adds commute. */
  lemma AddHashCommutes(b: seq<nat>, nBits: nat, h1: Hash64, h2: Hash64)
    requires 1 <= nBits <= BitsetCapacity && |b| == Pow2(nBits)
    ensures AddHash(AddHash(b, nBits, h1), nBits, h2) == AddHash(AddHash(b, nBits, h2), nBits, h1)
  {
    var x := AddHash(AddHash(b, nBits, h1), nBits, h2);
    var y := AddHash(AddHash(b, nBits, h2), nBits, h1);
    assert forall i :: 0 <= i < |b| ==> x[i] == y[i];
  }

  /** The bucket array after add_elem has seen the hashes hs, in order. */
  function AddAll(b: seq<nat>, nBits: nat, hs: seq<Hash64>): (r: seq<nat>)
    requires 1 <= nBits <= BitsetCapacity && |b| == Pow2(nBits)
    ensures |r| == |b|
    decreases hs
  {
    if hs == [] then b else AddAll(AddHash(b, nBits, hs[0]), nBits, hs[1..])
  }

  /** The largest rank among the hashes routed to bucket i (0 if none). */
  function MaxRank(hs: seq<Hash64>, nBits: nat, i: nat): (m: nat)
    requires 1 <= nBits <= BitsetCapacity
    ensures m <= BitsetCapacity
  {
    if hs == [] then 0
    else
      var here := if BucketIndex(hs[0], nBits) == i then PositionOfLeftmostOne(hs[0]) else 0;
      Max(here, MaxRank(hs[1..], nBits, i))
  }

  /** MaxRank is the maximum: an upper bound that is attained (or 0). */
  lemma {:induction false} MaxRankIsMaximum(hs: seq<Hash64>, nBits: nat, i: nat)
    requires 1 <= nBits <= BitsetCapacity
    ensures forall h :: h in hs && BucketIndex(h, nBits) == i ==> PositionOfLeftmostOne(h) <= MaxRank(hs, nBits, i)
    ensures MaxRank(hs, nBits, i) == 0
      || exists h :: h in hs && BucketIndex(h, nBits) == i && PositionOfLeftmostOne(h) == MaxRank(hs, nBits, i)
  {
    if hs != [] {
      MaxRankIsMaximum(hs[1..], nBits, i);
      assert forall h :: h in hs ==> h == hs[0] || h in hs[1..];
      var m := MaxRank(hs, nBits, i);
      if m != MaxRank(hs[1..], nBits, i) {
        assert BucketIndex(hs[0], nBits) == i && PositionOfLeftmostOne(hs[0]) == m;
      } else if m != 0 {
        var h :| h in hs[1..] && BucketIndex(h, nBits) == i && PositionOfLeftmostOne(h) == m;
        assert h in hs;
      }
    }
  }

  /** Closed form: after any stream, bucket i holds max(its start, MaxRank). */
  lemma {:induction false} AddAllBucket(b: seq<nat>, nBits: nat, hs: seq<Hash64>, i: nat)
    requires 1 <= nBits <= BitsetCapacity && |b| == Pow2(nBits) && i < |b|
    ensures AddAll(b, nBits, hs)[i] == Max(b[i], MaxRank(hs, nBits, i))
    decreases hs
  {
    if hs != [] {
      AddAllBucket(AddHash(b, nBits, hs[0]), nBits, hs[1..], i);
    }
  }

  /** Every bucket is non-decreasing along any stream of adds. */
  lemma AddAllMonotone(b: seq<nat>, nBits: nat, hs: seq<Hash64>, j: nat, k: nat)
    requires 1 <= nBits <= BitsetCapacity && |b| == Pow2(nBits)
    requires j <= k <= |hs|
    ensures forall i :: 0 <= i < |b| ==> b[i] <= AddAll(b, nBits, hs[..j])[i] <= AddAll(b, nBits, hs[..k])[i]
  {
    forall i | 0 <= i < |b|
      ensures b[i] <= AddAll(b, nBits, hs[..j])[i] <= AddAll(b, nBits, hs[..k])[i]
    {
      AddAllBucket(b, nBits, hs[..j], i);
      AddAllBucket(b, nBits, hs[..k], i);
      MaxRankIsMaximum(hs[..j], nBits, i);
      MaxRankIsMaximum(hs[..k], nBits, i);
      var m := MaxRank(hs[..j], nBits, i);
      if m != 0 {
        var h :| h in hs[..j] && BucketIndex(h, nBits) == i && PositionOfLeftmostOne(h) == m;
        assert h in hs[..k];
      }
    }
  }

  /** The bucket maximum depends only on which hashes occur, not on order or repeats. */
  lemma SameHashesSameMaxRank(hs1: seq<Hash64>, hs2: seq<Hash64>, nBits: nat, i: nat)
    requires 1 <= nBits <= BitsetCapacity
    requires forall h :: h in hs1 <==> h in hs2
    ensures MaxRank(hs1, nBits, i) == MaxRank(hs2, nBits, i)
  {
    MaxRankIsMaximum(hs1, nBits, i);
    MaxRankIsMaximum(hs2, nBits, i);
  }

  /**
   * Order and duplicates do not matter: two streams with the same hashes
   * leave the same buckets.
   */
  lemma SameHashesSameBuckets(b: seq<nat>, nBits: nat, hs1: seq<Hash64>, hs2: seq<Hash64>)
    requires 1 <= nBits <= BitsetCapacity && |b| == Pow2(nBits)
    requires forall h :: h in hs1 <==> h in hs2
    ensures AddAll(b, nBits, hs1) == AddAll(b, nBits, hs2)
  {
    var r1, r2 := AddAll(b, nBits, hs1), AddAll(b, nBits, hs2);
    forall i | 0 <= i < |b|
      ensures r1[i] == r2[i]
    {
      AddAllBucket(b, nBits, hs1, i);
      AddAllBucket(b, nBits, hs2, i);
      SameHashesSameMaxRank(hs1, hs2, nBits, i);
    }
  }

  /** The hashes of a stream of values. */
  function Hashes<K>(hash: K -> Hash64, vs: seq<K>): (hs: seq<Hash64>)
    ensures |hs| == |vs|
    ensures forall j :: 0 <= j < |vs| ==> hs[j] == hash(vs[j])
  {
    if vs == [] then [] else [hash(vs[0])] + Hashes(hash, vs[1..])
  }

  lemma HashesOfSameValues<K>(hash: K -> Hash64, vs1: seq<K>, vs2: seq<K>)
    requires forall v :: v in vs1 ==> v in vs2
    ensures forall h :: h in Hashes(hash, vs1) ==> h in Hashes(hash, vs2)
  {
    var hs1, hs2 := Hashes(hash, vs1), Hashes(hash, vs2);
    forall h | h in hs1
      ensures h in hs2
    {
      var j :| 0 <= j < |hs1| && hs1[j] == h;
      assert vs1[j] in vs1;
      var k :| 0 <= k < |vs2| && vs2[k] == vs1[j];
      assert hs2[k] == h;
    }
  }

  /**
   * Since the hash is deterministic, two streams of values with the same
   * distinct elements (any order, any number of repeats) leave the same
   * buckets.
   */
  lemma SameValuesSameBuckets<K>(b: seq<nat>, nBits: nat, hash: K -> Hash64, vs1: seq<K>, vs2: seq<K>)
    requires 1 <= nBits <= BitsetCapacity && |b| == Pow2(nBits)
    requires forall v :: v in vs1 <==> v in vs2
    ensures AddAll(b, nBits, Hashes(hash, vs1)) == AddAll(b, nBits, Hashes(hash, vs2))
  {
    HashesOfSameValues(hash, vs1, vs2);
    HashesOfSameValues(hash, vs2, vs1);
    SameHashesSameBuckets(b, nBits, Hashes(hash, vs1), Hashes(hash, vs2));
  }

  /**
   * From fresh (all-zero) buckets, every bucket but the first is either still
   * 0 or holds a rank above 64 - nBits.
   */
  lemma UpperBucketsSaturate(nBits: nat, hs: seq<Hash64>, i: nat)
    requires 1 <= nBits <= BitsetCapacity && 1 <= i < Pow2(nBits)
    ensures var r := AddAll(seq(Pow2(nBits), _ => 0), nBits, hs)[i];
      r == 0 || BitsetCapacity - nBits < r <= BitsetCapacity
  {
    AddAllBucket(seq(Pow2(nBits), _ => 0), nBits, hs, i);
    MaxRankIsMaximum(hs, nBits, i);
    var m := MaxRank(hs, nBits, i);
    if m != 0 {
      var h :| h in hs && BucketIndex(h, nBits) == i && PositionOfLeftmostOne(h) == m;
      IndexBoundsRank(h, nBits);
    }
  }

  // ---------------------------------------------------------------------------
  // The estimator object (hll.rs:8-41)
  // ---------------------------------------------------------------------------

  /** `HyperLogLog<KeyType>`: n_bits, the bucket vector and the cached estimate. */
  class HyperLogLog<K> {
    const nBits: nat
    const hash: K -> Hash64
    const buckets: array<nat>
    var cardinality: nat

    /** 2^nBits buckets, each holding a rank of at most 64. */
    ghost predicate Valid()
      reads this, buckets
    {
      && nBits <= 30
      && buckets.Length == Pow2(nBits)
      && forall i :: 0 <= i < buckets.Length ==> buckets[i] <= BitsetCapacity
    }

    /**
     * `new(n_bits)`. A negative n_bits panics in `try_into().unwrap()`, and
     * `1 << n_bits` is an i32 that overflows from n_bits = 31 on.
     */
    constructor (nBits: int, hash: K -> Hash64)
      requires 0 <= nBits <= 30
      ensures Valid() && fresh(buckets)
      ensures this.nBits == nBits && this.hash == hash
      ensures buckets.Length == Pow2(nBits)
      ensures forall i :: 0 <= i < buckets.Length ==> buckets[i] == 0
      ensures cardinality == 0
    {
      this.nBits := nBits;
      this.hash := hash;
      buckets := new nat[Pow2(nBits)](_ => 0);
      cardinality := 0;
    }

    /** `get_cardinality`: the cached estimate, nothing recomputed. */
    method GetCardinality() returns (c: nat)
      ensures c == cardinality
    {
      c := cardinality;
    }

    /**
     * `add_elem`: raise the bucket the hash selects to the hash's rank.
     * Nothing but that one bucket changes; n_bits and the cached
     * cardinality are untouched.
     */
    method AddElem(val: K)
      requires Valid() && nBits >= 1
      modifies buckets
      ensures Valid()
      ensures buckets[..] == AddHash(old(buckets[..]), nBits, hash(val))
    {
      var h := hash(val);
      var binary := ComputeBinary(h);
      var leadingZeroes := PositionOfLeftmostOne(binary);
      var index := BucketIndex(h, nBits);
      buckets[index] := Max(buckets[index], leadingZeroes);
    }
  }

  /** A fresh estimator reports a cardinality of 0 (hll.rs:80-81). */
  method FreshCardinality<K>(nBits: int, hash: K -> Hash64) returns (c: nat)
    requires 0 <= nBits <= 30
    ensures c == 0
  {
    var hll := new HyperLogLog(nBits, hash);
    c := hll.GetCardinality();
  }
}
