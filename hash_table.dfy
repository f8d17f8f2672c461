/**
 * The multi-value hash table of p0/hash_table.c: a fixed, power-of-two
 * number of buckets, each a `Vec` of packed (key, value) words, selected by
 * Fibonacci multiplicative hashing of the key.
 */
module HashTable {
  import opened MachineWords
  import opened Vector

  // ---------------------------------------------------------------------
  // Fibonacci hashing and key/value packing
  // ---------------------------------------------------------------------

  /** The odd 64-bit constant nearest 2^64 divided by the golden ratio. */
  const MULTIPLIER: uint64 := 11400714819323198485
  const WORD_SIZE: nat := 64

  /**
   * `pr_hash`: the top `domainPow2` bits of the wrapped 64-bit product
   * `MULTIPLIER * key`. A shift by 64 (domainPow2 == 0) or by more is
   * undefined in C, so the domain starts at one bit.
   */
  function Hash(key: uint64, domainPow2: nat): (h: uint64)
    requires 1 <= domainPow2 <= WORD_SIZE
    ensures h < Pow2(domainPow2)
  {
    Pow2WordSizes();
    ShiftRightBound(WrappingMul(MULTIPLIER, key), WORD_SIZE - domainPow2, WORD_SIZE);
    ShiftRight(WrappingMul(MULTIPLIER, key), WORD_SIZE - domainPow2)
  }

  /** With a one-bit domain every key hashes to 0 or 1. */
  lemma HashOneBit(key: uint64)
    ensures Hash(key, 1) == 0 || Hash(key, 1) == 1
  {
    assert Pow2(1) == 2;
  }

  /** `pr_make_key_val`: the key's 32-bit pattern in the upper half, the value's in the lower. */
  function MakeKeyVal(key: int32, val: int32): (kv: uint64)
    ensures kv / TWO_32 == AsUnsigned32(key) && kv % TWO_32 == AsUnsigned32(val)
  {
    // The shifted key is below 2^64, so `<< 32` does not wrap, and the two
    // halves share no bit, so `|` is `+`.
    DivUnique(AsUnsigned32(key) * TWO_32 + AsUnsigned32(val), TWO_32, AsUnsigned32(key), AsUnsigned32(val));
    AsUnsigned32(key) * TWO_32 + AsUnsigned32(val)
  }

  /** `pr_parse_key`: the upper 32 bits, read as a signed integer. */
  function ParseKey(kv: uint64): (key: int32)
    ensures AsUnsigned32(key) == kv / TWO_32
  {
    Pow2WordSizes();
    ShiftRightBound(kv, 32, 64);
    ShiftRightIsDiv(kv, 32);
    Signed32RoundTrip(0, ShiftRight(kv, 32));
    AsSigned32(ShiftRight(kv, 32))
  }

  /** `pr_parse_val`: the lower 32 bits (`kv & UINT32_MAX`), read as a signed integer. */
  function ParseVal(kv: uint64): (val: int32)
    ensures AsUnsigned32(val) == kv % TWO_32
  {
    Signed32RoundTrip(0, kv % TWO_32);
    AsSigned32(kv % TWO_32)
  }

  /** Packing loses nothing, for every pair of 32-bit integers (the extremes -2^31 and 2^31 - 1 included). */
  lemma PackRoundTrip(key: int32, val: int32)
    ensures ParseKey(MakeKeyVal(key, val)) == key
    ensures ParseVal(MakeKeyVal(key, val)) == val
  {
    var kv := MakeKeyVal(key, val);
    Signed32RoundTrip(key, AsUnsigned32(ParseKey(kv)));
    Signed32RoundTrip(val, AsUnsigned32(ParseVal(kv)));
  }

  /** Every 64-bit word is the packing of its two halves, so packing is a bijection. */
  lemma UnpackRoundTrip(kv: uint64)
    ensures MakeKeyVal(ParseKey(kv), ParseVal(kv)) == kv
  {
    var k := MakeKeyVal(ParseKey(kv), ParseVal(kv));
    assert k == (k / TWO_32) * TWO_32 + k % TWO_32;
    assert kv == (kv / TWO_32) * TWO_32 + kv % TWO_32;
  }

  /** An entry holds (key, val) exactly when it is their packing. */
  lemma PackedEntry(kv: uint64, key: int32, val: int32)
    ensures (ParseKey(kv) == key && ParseVal(kv) == val) <==> kv == MakeKeyVal(key, val)
  {
    PackRoundTrip(key, val);
    UnpackRoundTrip(kv);
  }

  // ---------------------------------------------------------------------
  // The content of one bucket
  // ---------------------------------------------------------------------

  /** The entries of `bucket` whose key is `key`, in bucket order. */
  function Matches(bucket: seq<Generic>, key: int32): seq<Generic> {
    if bucket == [] then []
    else (if ParseKey(bucket[0]) == key then [bucket[0]] else []) + Matches(bucket[1..], key)
  }

  /** The entries of `bucket` whose key is not `key`, in bucket order. */
  function Others(bucket: seq<Generic>, key: int32): seq<Generic> {
    if bucket == [] then []
    else (if ParseKey(bucket[0]) != key then [bucket[0]] else []) + Others(bucket[1..], key)
  }

  /** The values stored under `key` in `bucket`, in bucket order: what `htbl_get` reports. */
  function MatchValues(bucket: seq<Generic>, key: int32): seq<int32> {
    if bucket == [] then []
    else (if ParseKey(bucket[0]) == key then [ParseVal(bucket[0])] else []) + MatchValues(bucket[1..], key)
  }

  /** A bucket with no entry under `key`. */
  ghost predicate NoKey(bucket: seq<Generic>, key: int32) {
    forall i :: 0 <= i < |bucket| ==> ParseKey(bucket[i]) != key
  }

  function SumLens(buckets: seq<seq<Generic>>): nat {
    if buckets == [] then 0 else |buckets[0]| + SumLens(buckets[1..])
  }

  /** Appending one entry extends the matches, the others and the values by at most that entry. */
  lemma AppendEntry(bucket: seq<Generic>, kv: Generic, key: int32)
    ensures Matches(bucket + [kv], key) == Matches(bucket, key) + (if ParseKey(kv) == key then [kv] else [])
    ensures Others(bucket + [kv], key) == Others(bucket, key) + (if ParseKey(kv) != key then [kv] else [])
    ensures MatchValues(bucket + [kv], key) == MatchValues(bucket, key) + (if ParseKey(kv) == key then [ParseVal(kv)] else [])
  {
    AppendMatches(bucket, kv, key);
    AppendOthers(bucket, kv, key);
    AppendValues(bucket, kv, key);
  }

  lemma {:induction false} AppendMatches(bucket: seq<Generic>, kv: Generic, key: int32)
    ensures Matches(bucket + [kv], key) == Matches(bucket, key) + (if ParseKey(kv) == key then [kv] else [])
  {
    if bucket != [] {
      assert (bucket + [kv])[1..] == bucket[1..] + [kv];
      AppendMatches(bucket[1..], kv, key);
    }
  }

  lemma {:induction false} AppendOthers(bucket: seq<Generic>, kv: Generic, key: int32)
    ensures Others(bucket + [kv], key) == Others(bucket, key) + (if ParseKey(kv) != key then [kv] else [])
  {
    if bucket != [] {
      assert (bucket + [kv])[1..] == bucket[1..] + [kv];
      AppendOthers(bucket[1..], kv, key);
    }
  }

  lemma {:induction false} AppendValues(bucket: seq<Generic>, kv: Generic, key: int32)
    ensures MatchValues(bucket + [kv], key) == MatchValues(bucket, key) + (if ParseKey(kv) == key then [ParseVal(kv)] else [])
  {
    if bucket != [] {
      assert (bucket + [kv])[1..] == bucket[1..] + [kv];
      AppendValues(bucket[1..], kv, key);
    }
  }

  /** There is one value per match, and every entry either matches or not. */
  lemma {:induction false} MatchCounts(bucket: seq<Generic>, key: int32)
    ensures |MatchValues(bucket, key)| == |Matches(bucket, key)|
    ensures |Matches(bucket, key)| + |Others(bucket, key)| == |bucket|
  {
    if bucket != [] {
      MatchCounts(bucket[1..], key);
    }
  }

  /** The others of a bucket, as a multiset, are its entries under other keys. */
  lemma {:induction false} OthersCount(bucket: seq<Generic>, key: int32, x: Generic)
    ensures multiset(Others(bucket, key))[x] == if ParseKey(x) != key then multiset(bucket)[x] else 0
  {
    if bucket != [] {
      OthersCount(bucket[1..], key, x);
      assert bucket == [bucket[0]] + bucket[1..];
    }
  }

  /** Two buckets with the same entries have the same others. */
  lemma OthersOfSameMultiset(a: seq<Generic>, b: seq<Generic>, key: int32)
    requires multiset(a) == multiset(b)
    ensures multiset(Others(a, key)) == multiset(Others(b, key))
  {
    forall x
      ensures multiset(Others(a, key))[x] == multiset(Others(b, key))[x]
    {
      OthersCount(a, key, x);
      OthersCount(b, key, x);
    }
  }

  /** A bucket without `key` has no match for it and is its own others. */
  lemma {:induction false} NoKeyMatches(bucket: seq<Generic>, key: int32)
    ensures NoKey(bucket, key) <==> Matches(bucket, key) == []
    ensures NoKey(bucket, key) <==> MatchValues(bucket, key) == []
    ensures NoKey(bucket, key) ==> Others(bucket, key) == bucket
  {
    if bucket != [] {
      NoKeyMatches(bucket[1..], key);
      if NoKey(bucket[1..], key) && ParseKey(bucket[0]) != key {
        forall i | 0 <= i < |bucket| ensures ParseKey(bucket[i]) != key {
          if i > 0 { assert bucket[i] == bucket[1..][i - 1]; }
        }
      }
      if NoKey(bucket, key) {
        forall i | 0 <= i < |bucket[1..]| ensures ParseKey(bucket[1..][i]) != key {
          assert bucket[1..][i] == bucket[i + 1];
        }
      }
    }
  }

  /** After `put(key, val)` a bucket reports `val` last among the values under `key`, and nothing new under other keys. */
  lemma PutThenValues(bucket: seq<Generic>, key: int32, val: int32, other: int32)
    requires other != key
    ensures MatchValues(bucket + [MakeKeyVal(key, val)], key) == MatchValues(bucket, key) + [val]
    ensures MatchValues(bucket + [MakeKeyVal(key, val)], other) == MatchValues(bucket, other)
  {
    PackRoundTrip(key, val);
    AppendEntry(bucket, MakeKeyVal(key, val), key);
    AppendEntry(bucket, MakeKeyVal(key, val), other);
  }

  /** Replacing one bucket changes the total length by the difference of the two lengths. */
  lemma {:induction false} SumLensUpdate(buckets: seq<seq<Generic>>, i: nat, b: seq<Generic>)
    requires i < |buckets|
    ensures SumLens(buckets[i := b]) + |buckets[i]| == SumLens(buckets) + |b|
  {
    if i > 0 {
      SumLensUpdate(buckets[1..], i - 1, b);
      assert buckets[i := b][1..] == buckets[1..][i - 1 := b];
    }
  }

  /** No bucket is longer than all buckets together. */
  lemma {:induction false} SumLensCovers(buckets: seq<seq<Generic>>, i: nat)
    requires i < |buckets|
    ensures |buckets[i]| <= SumLens(buckets)
  {
    if i > 0 {
      SumLensCovers(buckets[1..], i - 1);
    }
  }

  /** All-empty buckets hold nothing, and buckets that hold nothing are all empty. */
  lemma {:induction false} SumLensZero(buckets: seq<seq<Generic>>)
    ensures SumLens(buckets) == 0 <==> forall i :: 0 <= i < |buckets| ==> buckets[i] == []
  {
    if buckets != [] {
      SumLensZero(buckets[1..]);
      if SumLens(buckets) == 0 {
        forall i | 0 <= i < |buckets| ensures buckets[i] == [] {
          if i > 0 { assert buckets[i] == buckets[1..][i - 1]; }
        }
      }
      if forall i :: 0 <= i < |buckets| ==> buckets[i] == [] {
        assert buckets[0] == [];
        forall i | 0 <= i < |buckets[1..]| ensures buckets[1..][i] == [] {
          assert buckets[1..][i] == buckets[i + 1];
        }
      }
    }
  }

  // ---------------------------------------------------------------------
  // Table sizing
  // ---------------------------------------------------------------------

  const MIN_BUCKETS: nat := 8

  /**
   * The bucket count `htbl_new` chooses: `pow(2., ceil(log2(c)))`, which is
   * 0 for c == 0, raised to 8. It is a power of two, at least 8 and at
   * least the expected capacity.
   */
  function BucketCount(withCapacity: nat): (size: nat)
    ensures IsPowerOfTwo(size)
    ensures MIN_BUCKETS <= size && withCapacity <= size
  {
    NextPow2IsLeast(withCapacity);
    assert Pow2(3) == 8;
    Pow2IsPowerOfTwo(3);
    var size := if withCapacity == 0 then 0 else NextPow2(withCapacity);
    if size < MIN_BUCKETS then MIN_BUCKETS else size
  }

  /** No smaller power of two is at least both the expected capacity and 8. */
  lemma BucketCountIsLeast(withCapacity: nat)
    ensures forall e: nat :: MIN_BUCKETS <= Pow2(e) && withCapacity <= Pow2(e) ==> BucketCount(withCapacity) <= Pow2(e)
  {
    NextPow2IsLeast(withCapacity);
  }

  /** The exponent of the bucket count: `floor(log2(size))` of a power of two. */
  lemma BucketCountLog2(withCapacity: nat)
    ensures BucketCount(withCapacity) == Pow2(Log2Floor(BucketCount(withCapacity)))
    ensures withCapacity <= TWO_63 ==> 3 <= Log2Floor(BucketCount(withCapacity)) <= 63
  {
    var size := BucketCount(withCapacity);
    assert Pow2(3) == 8;
    if withCapacity == 0 || NextPow2(withCapacity) < MIN_BUCKETS {
      Log2FloorOfPow2(3);
    } else {
      Log2FloorOfPow2(Log2Ceil(withCapacity));
      if withCapacity <= TWO_63 {
        Pow2WordSizes();
        Log2CeilLeast(withCapacity, 63);
        if Log2Ceil(withCapacity) < 3 {
          Pow2Monotone(Log2Ceil(withCapacity), 2);
        }
      }
    }
  }

  // ---------------------------------------------------------------------
  // Bucket selection
  // ---------------------------------------------------------------------

  /**
   * The bucket index `pr_get_bucket` computes for `key` in a table of
   * `2^log2` buckets: the hash of the key sign-extended to 64 bits. It is
   * always in range, which is the assertion `pr_get_bucket` makes.
   */
  function BucketIndex(key: int32, log2: nat): (idx: nat)
    requires 1 <= log2 <= WORD_SIZE
    ensures idx < Pow2(log2)
  {
    Hash(AsUnsigned64(key), log2)
  }

  /** Every entry of every bucket sits in the bucket its key selects. */
  ghost predicate EntriesHashed(contents: seq<seq<Generic>>, log2: nat)
    requires 1 <= log2 <= WORD_SIZE
  {
    forall i, k :: 0 <= i < |contents| && 0 <= k < |contents[i]| ==>
      BucketIndex(ParseKey(contents[i][k]), log2) == i
  }

  /** Appending an entry to the bucket its key selects keeps every entry in its own bucket. */
  lemma HashedAfterAppend(contents: seq<seq<Generic>>, log2: nat, b: nat, kv: Generic)
    requires 1 <= log2 <= WORD_SIZE && b < |contents|
    requires EntriesHashed(contents, log2) && BucketIndex(ParseKey(kv), log2) == b
    ensures EntriesHashed(contents[b := contents[b] + [kv]], log2)
  {
    var grown := contents[b] + [kv];
    var after := contents[b := grown];
    forall i, k | 0 <= i < |after| && 0 <= k < |after[i]|
      ensures BucketIndex(ParseKey(after[i][k]), log2) == i
    {
      if i != b {
        assert after[i] == contents[i];
      } else if k < |contents[b]| {
        assert grown[k] == contents[b][k];
      }
    }
  }

  /** Replacing a bucket by part of its own entries keeps every entry in its own bucket. */
  lemma HashedAfterShrink(contents: seq<seq<Generic>>, log2: nat, b: nat, shrunk: seq<Generic>)
    requires 1 <= log2 <= WORD_SIZE && b < |contents|
    requires EntriesHashed(contents, log2)
    requires multiset(shrunk) <= multiset(contents[b])
    ensures EntriesHashed(contents[b := shrunk], log2)
  {
    var after := contents[b := shrunk];
    forall i, k | 0 <= i < |after| && 0 <= k < |after[i]|
      ensures BucketIndex(ParseKey(after[i][k]), log2) == i
    {
      if i == b {
        assert shrunk[k] in multiset(shrunk);
        assert shrunk[k] in multiset(contents[b]);
        var k' :| 0 <= k' < |contents[b]| && contents[b][k'] == shrunk[k];
      }
    }
  }

  /** The others of a bucket are some of its entries. */
  lemma OthersIncluded(bucket: seq<Generic>, key: int32)
    ensures multiset(Others(bucket, key)) <= multiset(bucket)
  {
    forall x
      ensures multiset(Others(bucket, key))[x] <= multiset(bucket)[x]
    {
      OthersCount(bucket, key, x);
    }
  }

  /**
   * The bucket after `vec_swap(idx, len - 1)` and `vec_pop`: the last entry
   * takes the place of the one at `idx`, and the bucket is one shorter.
   */
  function SwapRemove(bucket: seq<Generic>, idx: nat): (r: seq<Generic>)
    requires idx < |bucket|
    ensures |r| == |bucket| - 1
    ensures forall k :: 0 <= k < |r| && k != idx ==> r[k] == bucket[k]
    ensures idx < |r| ==> r[idx] == bucket[|bucket| - 1]
  {
    bucket[idx := bucket[|bucket| - 1]][..|bucket| - 1]
  }

  /** Exchanging two entries keeps the multiset of entries. */
  lemma SwapMultiset(bucket: seq<Generic>, i: nat, j: nat)
    requires i < |bucket| && j < |bucket|
    ensures multiset(bucket[i := bucket[j]][j := bucket[i]]) == multiset(bucket)
  {
    var once := bucket[i := bucket[j]];
    assert multiset(once) == multiset(bucket) - multiset{bucket[i]} + multiset{bucket[j]};
    assert once[j] == bucket[j];
  }

  /** Removing an entry under `key` keeps the entries under every other key. */
  lemma SwapRemoveOthers(bucket: seq<Generic>, idx: nat, key: int32)
    requires idx < |bucket| && ParseKey(bucket[idx]) == key
    ensures multiset(Others(SwapRemove(bucket, idx), key)) == multiset(Others(bucket, key))
  {
    var last := |bucket| - 1;
    var swapped := bucket[idx := bucket[last]][last := bucket[idx]];
    SwapMultiset(bucket, idx, last);
    OthersOfSameMultiset(bucket, swapped, key);
    assert swapped == SwapRemove(bucket, idx) + [bucket[idx]];
    AppendEntry(SwapRemove(bucket, idx), bucket[idx], key);
  }

  /**
   * The invariant of the `htbl_erase` loop, `idx` entries in: none of the
   * first `idx` entries of `cur` has the key, and `cur` still holds every
   * entry of `start` under another key.
   */
  ghost predicate ErasedBefore(start: seq<Generic>, cur: seq<Generic>, idx: nat, key: int32) {
    idx <= |cur| &&
    (forall k :: 0 <= k < idx ==> ParseKey(cur[k]) != key) &&
    multiset(Others(cur, key)) == multiset(Others(start, key))
  }

  /** Each turn of the loop keeps the invariant: step past an entry under another key, or remove a match. */
  lemma EraseStep(start: seq<Generic>, cur: seq<Generic>, idx: nat, key: int32)
    requires ErasedBefore(start, cur, idx, key) && idx < |cur|
    ensures ParseKey(cur[idx]) != key ==> ErasedBefore(start, cur, idx + 1, key)
    ensures ParseKey(cur[idx]) == key ==> ErasedBefore(start, SwapRemove(cur, idx), idx, key)
  {
    if ParseKey(cur[idx]) == key {
      SwapRemoveOthers(cur, idx, key);
    }
  }

  /**
   * When the loop stops, the bucket has no entry under the key, holds
   * exactly the others of `start`, and is shorter by the number of matches.
   */
  lemma EraseDone(start: seq<Generic>, cur: seq<Generic>, key: int32)
    requires ErasedBefore(start, cur, |cur|, key)
    ensures NoKey(cur, key)
    ensures multiset(cur) == multiset(Others(start, key))
    ensures |start| - |cur| == |Matches(start, key)|
  {
    NoKeyMatches(cur, key);
    MatchCounts(start, key);
    assert |multiset(Others(start, key))| == |Others(start, key)|;
  }

  /**
   * The invariant on the entries of a table of `2^log2` buckets whose count
   * is `count`: every entry is in the bucket its key selects, and the count
   * is the number of entries.
   */
  ghost predicate ContentsValid(contents: seq<seq<Generic>>, log2: nat, count: nat) {
    1 <= log2 <= WORD_SIZE && |contents| == Pow2(log2) &&
    EntriesHashed(contents, log2) && count == SumLens(contents)
  }

  lemma SubMultisetSize(a: multiset<Generic>, b: multiset<Generic>)
    requires a <= b
    ensures |a| <= |b|
  {
    assert b == a + (b - a);
  }

  /** `htbl_new` establishes the invariant: empty buckets and a count of 0. */
  lemma EmptyValid(contents: seq<seq<Generic>>, log2: nat)
    requires 1 <= log2 <= WORD_SIZE && |contents| == Pow2(log2)
    requires forall i :: 0 <= i < |contents| ==> contents[i] == []
    ensures ContentsValid(contents, log2, 0)
  {
    SumLensZero(contents);
  }

  /** `htbl_put` keeps the invariant: one more entry, in its key's bucket. */
  lemma PutKeeps(contents: seq<seq<Generic>>, log2: nat, count: nat, key: int32, val: int32)
    requires ContentsValid(contents, log2, count)
    ensures var b := BucketIndex(key, log2);
      ContentsValid(contents[b := contents[b] + [MakeKeyVal(key, val)]], log2, count + 1)
  {
    var b := BucketIndex(key, log2);
    PackRoundTrip(key, val);
    HashedAfterAppend(contents, log2, b, MakeKeyVal(key, val));
    SumLensUpdate(contents, b, contents[b] + [MakeKeyVal(key, val)]);
  }

  /** `htbl_erase` keeps the invariant: a bucket shrinks to some of its entries, and the count drops by as many. */
  lemma EraseKeeps(contents: seq<seq<Generic>>, log2: nat, count: nat, b: nat, now: seq<Generic>, key: int32)
    requires ContentsValid(contents, log2, count) && b < |contents|
    requires multiset(now) == multiset(Others(contents[b], key))
    ensures |now| <= |contents[b]| <= count
    ensures ContentsValid(contents[b := now], log2, count - (|contents[b]| - |now|))
  {
    OthersIncluded(contents[b], key);
    SubMultisetSize(multiset(now), multiset(contents[b]));
    SumLensCovers(contents, b);
    SumLensUpdate(contents, b, now);
    HashedAfterShrink(contents, log2, b, now);
  }

  /**
   * Under the invariant no bucket but the key's own holds an entry under
   * the key, so scanning that one bucket, as `htbl_get` and `htbl_erase` do,
   * sees every entry of the table under the key.
   */
  lemma KeyOnlyInItsBucket(contents: seq<seq<Generic>>, log2: nat, count: nat, key: int32, i: nat)
    requires ContentsValid(contents, log2, count) && i < |contents| && i != BucketIndex(key, log2)
    ensures NoKey(contents[i], key) && Matches(contents[i], key) == []
  {
    forall k | 0 <= k < |contents[i]|
      ensures ParseKey(contents[i][k]) != key
    {
      assert BucketIndex(ParseKey(contents[i][k]), log2) == i;
    }
    NoKeyMatches(contents[i], key);
  }

  // ---------------------------------------------------------------------
  // The table
  // ---------------------------------------------------------------------

  class HashTable {
    var elCt: nat
    const numBuckets: nat
    const numBucketsLog2: nat
    /**
     * The bucket array. It is allocated once by `htbl_new` and never
     * reassigned; what changes is the vectors it holds.
     */
    const buckets: seq<Vec>

    /** The abstract value: the entries of each bucket, in bucket order. */
    ghost var Contents: seq<seq<Generic>>
    ghost var Repr: set<object>

    ghost predicate Valid()
      reads this, Repr
    {
      this in Repr &&
      3 <= numBucketsLog2 <= 63 && numBuckets == Pow2(numBucketsLog2) &&
      |buckets| == numBuckets && ContentsValid(Contents, numBucketsLog2, elCt) &&
      (forall i :: 0 <= i < numBuckets ==> buckets[i] in Repr && buckets[i].arr in Repr) &&
      (forall i, j :: 0 <= i < j < numBuckets ==> buckets[i] != buckets[j] && buckets[i].arr != buckets[j].arr) &&
      (forall i :: 0 <= i < numBuckets ==> buckets[i].Valid() && buckets[i].Elements() == Contents[i])
    }

    /** `pr_get_bucket`: the bucket of `key`, checked to be below the bucket count. */
    function GetBucket(key: int32): (idx: nat)
      reads this
      requires 1 <= numBucketsLog2 <= WORD_SIZE && numBuckets == Pow2(numBucketsLog2)
      ensures idx < numBuckets
    {
      BucketIndex(key, numBucketsLog2)
    }

    /** The entries in the bucket of `key`. */
    ghost function BucketOf(key: int32): seq<Generic>
      reads this, Repr
      requires Valid()
    {
      Contents[GetBucket(key)]
    }

    /**
     * `htbl_new`: `BucketCount(withCapacity)` empty buckets, each a fresh
     * `vec_new(4)`, and no entries. Beyond 2^63 the bucket count would not
     * fit the `uint64_t` it is stored in.
     */
    constructor (withCapacity: nat)
      requires withCapacity <= TWO_63
      ensures Valid() && fresh(Repr)
      ensures numBuckets == BucketCount(withCapacity) && numBuckets == Pow2(numBucketsLog2)
      ensures elCt == 0 && forall i :: 0 <= i < numBuckets ==> Contents[i] == []
    {
      var size := if withCapacity == 0 then 0 else NextPow2(withCapacity);
      if size < MIN_BUCKETS {
        size := MIN_BUCKETS;
      }
      BucketCountLog2(withCapacity);
      var vecs;
      ghost var objs;
      vecs, objs := NewBuckets(size);
      buckets := vecs;
      elCt := 0;
      numBuckets := size;
      numBucketsLog2 := Log2Floor(size);
      Contents := seq(size, i => []);
      Repr := {this} + objs;
      new;
      EmptyValid(Contents, numBucketsLog2);
    }

    /**
     * `htbl_put`: the key's bucket gains the packed pair at its end, the
     * count rises by one, and every other bucket is unchanged.
     */
    method Put(key: int32, value: int32)
      requires Valid()
      modifies Repr
      ensures Valid() && fresh(Repr - old(Repr))
      ensures Contents == old(Contents)[GetBucket(key) := old(Contents)[GetBucket(key)] + [MakeKeyVal(key, value)]]
      ensures elCt == old(elCt) + 1
    {
      var b := GetBucket(key);
      var bucket := buckets[b];
      ghost var oldArr := bucket.arr;
      var kv := MakeKeyVal(key, value);
      bucket.Push(kv);
      PutKeeps(Contents, numBucketsLog2, elCt, key, value);
      elCt, Contents, Repr := elCt + 1, Contents[b := Contents[b] + [kv]], Repr + {bucket.arr};
      forall i | 0 <= i < numBuckets && i != b
        ensures buckets[i].Valid() && buckets[i].Elements() == Contents[i]
      {
        assert buckets[i] != bucket;
        assert buckets[i].arr != oldArr;
      }
    }

    /**
     * `htbl_get`: returns how many entries of the key's bucket have the key,
     * writes the values of the first `min(count, numValues)` of them, in
     * bucket order, to `values[0..)`, and writes no other slot. A caller that
     * retries with `numValues` at least the count gets every value.
     */
    method Get(key: int32, values: array<int32>, numValues: nat) returns (numResults: nat)
      requires Valid() && numValues <= values.Length
      modifies values
      ensures numResults == |MatchValues(BucketOf(key), key)|
      ensures forall j :: 0 <= j < numValues && j < numResults ==> values[j] == MatchValues(BucketOf(key), key)[j]
      ensures forall j :: 0 <= j < values.Length && (numValues <= j || numResults <= j) ==> values[j] == old(values[j])
    {
      var bucket := buckets[GetBucket(key)];
      numResults := ScanBucket(bucket, key, values, numValues);
    }

    /**
     * `htbl_erase`: swap-with-last then pop at every match. Afterwards the
     * key's bucket has no entry under the key and holds exactly the other
     * entries (order aside), the count has dropped by the number of entries
     * removed, and every other bucket is unchanged.
     */
    method Erase(key: int32)
      requires Valid()
      modifies Repr
      ensures Valid() && Repr == old(Repr)
      ensures |Contents| == |old(Contents)|
      ensures forall i :: 0 <= i < |Contents| && i != GetBucket(key) ==> Contents[i] == old(Contents)[i]
      ensures NoKey(BucketOf(key), key)
      ensures multiset(BucketOf(key)) == multiset(Others(old(BucketOf(key)), key))
      ensures elCt == old(elCt) - |Matches(old(BucketOf(key)), key)|
    {
      var b := GetBucket(key);
      var bucket := buckets[b];
      ghost var start := Contents[b];
      var removed := EraseFromBucket(bucket, key);
      ghost var now := bucket.Elements();
      EraseKeeps(Contents, numBucketsLog2, elCt, b, now, key);
      elCt, Contents := elCt - removed, Contents[b := now];
      forall i | 0 <= i < numBuckets && i != b
        ensures buckets[i].Valid() && buckets[i].Elements() == Contents[i]
      {
        assert buckets[i] != bucket;
        assert buckets[i].arr != bucket.arr;
      }
    }

    /** `htbl_size`: the number of entries, which is the total length of the buckets. */
    function Size(): (n: nat)
      reads this, Repr
      requires Valid()
      ensures n == SumLens(Contents)
    {
      elCt
    }
  }

  /**
   * The loop of `htbl_new`: `count` fresh, empty vectors of capacity 4, no
   * two of which share a vector or a buffer.
   */
  method NewBuckets(count: nat) returns (vecs: seq<Vec>, ghost objs: set<object>)
    ensures |vecs| == count && fresh(objs)
    ensures forall i :: 0 <= i < count ==> vecs[i] in objs && vecs[i].arr in objs
    ensures forall i :: 0 <= i < count ==> vecs[i].Valid() && vecs[i].Elements() == [] && vecs[i].capacity == 4
    ensures forall i, j :: 0 <= i < j < count ==> vecs[i] != vecs[j] && vecs[i].arr != vecs[j].arr
  {
    vecs := [];
    objs := {};
    NewCapacityIsLeast(4);
    assert NewCapacity(4) <= Pow2(2);
    for idx := 0 to count
      invariant |vecs| == idx && fresh(objs)
      invariant forall i :: 0 <= i < idx ==> vecs[i] in objs && vecs[i].arr in objs
      invariant forall i :: 0 <= i < idx ==> vecs[i].Valid() && vecs[i].Elements() == [] && vecs[i].capacity == 4
      invariant forall i, j :: 0 <= i < j < idx ==> vecs[i] != vecs[j] && vecs[i].arr != vecs[j].arr
    {
      var v := new Vec(4);
      vecs := vecs + [v];
      objs := objs + {v, v.arr};
    }
  }

  /**
   * The scan of `htbl_get` over the key's bucket: counts the entries under
   * `key` and stores the value of each of the first `numValues` of them.
   */
  method ScanBucket(bucket: Vec, key: int32, values: array<int32>, numValues: nat) returns (numResults: nat)
    requires bucket.Valid() && numValues <= values.Length
    modifies values
    ensures numResults == |MatchValues(bucket.Elements(), key)|
    ensures forall j :: 0 <= j < numValues && j < numResults ==> values[j] == MatchValues(bucket.Elements(), key)[j]
    ensures forall j :: 0 <= j < values.Length && (numValues <= j || numResults <= j) ==> values[j] == old(values[j])
  {
    ghost var entries := bucket.Elements();
    numResults := 0;
    for idx := 0 to bucket.len
      invariant numResults == |MatchValues(entries[..idx], key)|
      invariant forall j :: 0 <= j < numValues && j < numResults ==> values[j] == MatchValues(entries[..idx], key)[j]
      invariant forall j :: 0 <= j < values.Length && (numValues <= j || numResults <= j) ==> values[j] == old(values[j])
    {
      var kv := bucket.arr[idx];
      assert entries[..idx + 1] == entries[..idx] + [kv];
      AppendEntry(entries[..idx], kv, key);
      if ParseKey(kv) != key {
        continue;
      }
      if numResults < numValues {
        values[numResults] := ParseVal(kv);
      }
      numResults := numResults + 1;
    }
    assert entries[..bucket.len] == entries;
  }

  /**
   * The loop of `htbl_erase` over the key's bucket: at a match in position
   * `idx`, swap it with the last element (when there is more than one), pop,
   * and look at `idx` again. Returns how many entries were removed, which is
   * how many times `htbl_erase` decrements the count.
   */
  method EraseFromBucket(bucket: Vec, key: int32) returns (removed: nat)
    requires bucket.Valid()
    modifies bucket, bucket.arr
    ensures bucket.Valid() && bucket.arr == old(bucket.arr)
    ensures NoKey(bucket.Elements(), key)
    ensures multiset(bucket.Elements()) == multiset(Others(old(bucket.Elements()), key))
    ensures removed == |Matches(old(bucket.Elements()), key)| == old(bucket.len) - bucket.len
  {
    ghost var start := bucket.Elements();
    ghost var cur := start;
    removed := 0;
    var idx := 0;
    while idx < bucket.len
      invariant bucket.Valid() && bucket.arr == old(bucket.arr)
      invariant bucket.Elements() == cur && bucket.len == |cur|
      invariant ErasedBefore(start, cur, idx, key)
      invariant removed + |cur| == |start|
      decreases |cur| - idx
    {
      var kv := bucket.Index(idx);
      EraseStep(start, cur, idx, key);
      if ParseKey(kv) != key {
        idx := idx + 1;
        continue;
      }
      SwapPopStep(bucket, idx);
      cur := SwapRemove(cur, idx);
      removed := removed + 1;
    }
    EraseDone(start, cur, key);
  }

  /**
   * One removal step of `htbl_erase` at a match in position `idx`: the bucket
   * becomes `SwapRemove` of itself.
   */
  method SwapPopStep(bucket: Vec, idx: nat)
    requires bucket.Valid() && idx < bucket.len
    modifies bucket, bucket.arr
    ensures bucket.Valid() && bucket.arr == old(bucket.arr)
    ensures bucket.Elements() == SwapRemove(old(bucket.Elements()), idx)
  {
    if bucket.len > 1 {
      bucket.Swap(idx, bucket.len - 1);
    }
    var _ := bucket.Pop();
  }
}
