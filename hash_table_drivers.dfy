/**
 * The hash-table drivers p0/main.c and p0/test.c, as methods whose contracts
 * state what their `assert`s and checks expect. Random keys and values
 * become parameters; printing is left out.
 */
module HashTableDrivers {
  import opened MachineWords
  import opened HashTable

  /**
   * `test_basic_map`: two values under key 5 in a table made for 10 entries.
   * The size is 2; a one-slot `get` reports 2 matches, so the caller retries
   * with two slots and receives -19 then -20; after `erase` the size is 0.
   */
  method BasicMapScenario()
    returns (sizeAfterPuts: nat, firstCount: nat, retried: seq<int32>, sizeAfterErase: nat)
    ensures sizeAfterPuts == 2 && firstCount == 2
    ensures retried == [-19, -20]
    ensures sizeAfterErase == 0
  {
    var ht := new HashTable(10);
    var key: int32 := 5;
    ghost var b := ht.GetBucket(key);
    ht.Put(key, -19);
    ht.Put(key, -20);
    sizeAfterPuts := ht.Size();
    BasicMapBucket(key);
    assert ht.BucketOf(key) == [MakeKeyVal(key, -19), MakeKeyVal(key, -20)];

    firstCount, retried := GetWithRetry(ht, key, 1);

    ht.Erase(key);
    sizeAfterErase := ht.Size();
  }

  /**
   * The retry protocol of `test_basic_map`: `get` into a buffer of
   * `numValues` slots and, when it reports more matches than that, `get`
   * again into a buffer of exactly that many. The second answer is every
   * value under `key`, in bucket order.
   */
  method GetWithRetry(ht: HashTable, key: int32, numValues: nat)
    returns (firstCount: nat, all: seq<int32>)
    requires ht.Valid()
    ensures firstCount == |MatchValues(ht.BucketOf(key), key)|
    ensures all == MatchValues(ht.BucketOf(key), key)
  {
    firstCount, all := GetInto(ht, key, numValues);
    if firstCount > numValues {
      var numResults;
      numResults, all := GetInto(ht, key, firstCount);
    }
  }

  /**
   * One `get` into a fresh buffer of `numValues` slots: the number of
   * matches, and the slots it fills, which hold the first
   * `min(count, numValues)` values under `key`.
   */
  method GetInto(ht: HashTable, key: int32, numValues: nat)
    returns (numResults: nat, got: seq<int32>)
    requires ht.Valid()
    ensures numResults == |MatchValues(ht.BucketOf(key), key)|
    ensures got == MatchValues(ht.BucketOf(key), key)[..if numResults < numValues then numResults else numValues]
  {
    var values := new int32[numValues];
    numResults := ht.Get(key, values, numValues);
    got := values[..if numResults < numValues then numResults else numValues];
  }

  /** The bucket of `test_basic_map` after its two puts. */
  lemma BasicMapBucket(key: int32)
    ensures MatchValues([MakeKeyVal(key, -19), MakeKeyVal(key, -20)], key) == [-19, -20]
    ensures |Matches([MakeKeyVal(key, -19), MakeKeyVal(key, -20)], key)| == 2
  {
    var other: int32 := if key == 0 then 1 else 0;
    PutThenValues([], key, -19, other);
    PutThenValues([MakeKeyVal(key, -19)], key, -20, other);
    assert [MakeKeyVal(key, -19)] == [] + [MakeKeyVal(key, -19)];
    MatchCounts([MakeKeyVal(key, -19), MakeKeyVal(key, -20)], key);
  }

  // ---------------------------------------------------------------------
  // p0/test.c
  // ---------------------------------------------------------------------

  /** No key occurs twice. `test.c` draws its keys from `rand()` and expects no repeats. */
  ghost predicate Distinct(keys: seq<int32>) {
    forall i, j :: 0 <= i < j < |keys| ==> keys[i] != keys[j]
  }

  /**
   * After the first `i` puts, each of those keys holds exactly its own value,
   * and each later key holds nothing yet.
   */
  ghost predicate InsertedUpTo(contents: seq<seq<Generic>>, log2: nat, keys: seq<int32>, values: seq<int32>, i: nat)
    requires 1 <= log2 <= WORD_SIZE && |contents| == Pow2(log2)
    requires |keys| == |values| && i <= |keys|
  {
    (forall j :: 0 <= j < i ==> MatchValues(contents[BucketIndex(keys[j], log2)], keys[j]) == [values[j]]) &&
    (forall j :: i <= j < |keys| ==> MatchValues(contents[BucketIndex(keys[j], log2)], keys[j]) == [])
  }

  /** A fresh table holds nothing under any key. */
  lemma InsertedNone(contents: seq<seq<Generic>>, log2: nat, keys: seq<int32>, values: seq<int32>)
    requires 1 <= log2 <= WORD_SIZE && |contents| == Pow2(log2) && |keys| == |values|
    requires forall i :: 0 <= i < |contents| ==> contents[i] == []
    ensures InsertedUpTo(contents, log2, keys, values, 0)
  {
  }

  /** Putting the `i`-th pair of distinct keys extends `InsertedUpTo` by one. */
  lemma InsertStep(contents: seq<seq<Generic>>, log2: nat, keys: seq<int32>, values: seq<int32>, i: nat)
    requires 1 <= log2 <= WORD_SIZE && |contents| == Pow2(log2)
    requires |keys| == |values| && i < |keys| && Distinct(keys)
    requires InsertedUpTo(contents, log2, keys, values, i)
    ensures var b := BucketIndex(keys[i], log2);
      InsertedUpTo(contents[b := contents[b] + [MakeKeyVal(keys[i], values[i])]], log2, keys, values, i + 1)
  {
    var b := BucketIndex(keys[i], log2);
    var after := contents[b := contents[b] + [MakeKeyVal(keys[i], values[i])]];
    forall j | 0 <= j < |keys|
      ensures MatchValues(after[BucketIndex(keys[j], log2)], keys[j]) == if j <= i then [values[j]] else []
    {
      PutThenGet(contents, log2, keys[i], values[i], keys[j]);
      if j != i {
        assert keys[j] != keys[i] by {
          if j < i { assert keys[j] != keys[i]; } else { assert keys[i] != keys[j]; }
        }
      }
    }
  }

  /** After `put(key, val)` the values under `k` gain `val` when `k` is `key` and are unchanged otherwise. */
  lemma PutThenGet(contents: seq<seq<Generic>>, log2: nat, key: int32, val: int32, k: int32)
    requires 1 <= log2 <= WORD_SIZE && |contents| == Pow2(log2)
    ensures var b := BucketIndex(key, log2);
      var after := contents[b := contents[b] + [MakeKeyVal(key, val)]];
      MatchValues(after[BucketIndex(k, log2)], k) ==
        MatchValues(contents[BucketIndex(k, log2)], k) + (if k == key then [val] else [])
  {
    var b := BucketIndex(key, log2);
    var other: int32 := if key == 0 then 1 else 0;
    if k == key {
      PutThenValues(contents[b], key, val, other);
    } else if BucketIndex(k, log2) == b {
      PutThenValues(contents[b], key, val, k);
    }
  }

  /**
   * `test.c` on any keys without repeats, any values, and any probe
   * indices: every probed `get` with a one-slot buffer finds at least one
   * match and writes the probed key's value, and after each `erase` the
   * same key's `get` finds nothing.
   */
  method PutGetEraseScenario(keys: seq<int32>, values: seq<int32>, probes: seq<nat>)
    returns (counts: seq<nat>, firsts: seq<int32>, erasedCounts: seq<nat>)
    requires |keys| == |values| <= TWO_63 && Distinct(keys)
    requires forall i :: 0 <= i < |probes| ==> probes[i] < |keys|
    ensures |counts| == |firsts| == |probes| && |erasedCounts| == |keys|
    ensures forall i :: 0 <= i < |probes| ==> counts[i] > 0 && firsts[i] == values[probes[i]]
    ensures forall i :: 0 <= i < |keys| ==> erasedCounts[i] == 0
  {
    var ht := new HashTable(|keys|);
    InsertedNone(ht.Contents, ht.numBucketsLog2, keys, values);
    InsertAll(ht, keys, values);
    counts, firsts := ProbeAll(ht, keys, values, probes);
    erasedCounts := EraseAll(ht, keys);
  }

  /** The put loop of `test.c`. */
  method InsertAll(ht: HashTable, keys: seq<int32>, values: seq<int32>)
    requires ht.Valid() && |keys| == |values| && Distinct(keys)
    requires InsertedUpTo(ht.Contents, ht.numBucketsLog2, keys, values, 0)
    modifies ht.Repr
    ensures ht.Valid() && fresh(ht.Repr - old(ht.Repr))
    ensures InsertedUpTo(ht.Contents, ht.numBucketsLog2, keys, values, |keys|)
  {
    for i := 0 to |keys|
      invariant ht.Valid() && fresh(ht.Repr - old(ht.Repr))
      invariant InsertedUpTo(ht.Contents, ht.numBucketsLog2, keys, values, i)
    {
      InsertStep(ht.Contents, ht.numBucketsLog2, keys, values, i);
      ht.Put(keys[i], values[i]);
    }
  }

  /** The get loop of `test.c`, with the probe indices that `rand() % num_tests` would draw. */
  method ProbeAll(ht: HashTable, keys: seq<int32>, values: seq<int32>, probes: seq<nat>)
    returns (counts: seq<nat>, firsts: seq<int32>)
    requires ht.Valid() && |keys| == |values|
    requires InsertedUpTo(ht.Contents, ht.numBucketsLog2, keys, values, |keys|)
    requires forall i :: 0 <= i < |probes| ==> probes[i] < |keys|
    ensures |counts| == |firsts| == |probes|
    ensures forall i :: 0 <= i < |probes| ==> counts[i] > 0 && firsts[i] == values[probes[i]]
  {
    var results := new int32[1];
    counts, firsts := [], [];
    for i := 0 to |probes|
      invariant results !in ht.Repr && ht.Valid()
      invariant |counts| == |firsts| == i
      invariant forall k :: 0 <= k < i ==> counts[k] > 0 && firsts[k] == values[probes[k]]
    {
      var index := probes[i];
      var numResults, first := GetFirst(ht, keys[index], results);
      counts, firsts := counts + [numResults], firsts + [first];
    }
  }

  /** One round of the get loop of `test.c`: a key holding one value reports one match and writes that value. */
  method GetFirst(ht: HashTable, key: int32, results: array<int32>) returns (numResults: nat, first: int32)
    requires ht.Valid() && results.Length >= 1 && results !in ht.Repr
    requires |MatchValues(ht.BucketOf(key), key)| == 1
    modifies results
    ensures ht.Valid()
    ensures numResults == 1 && first == MatchValues(ht.BucketOf(key), key)[0]
  {
    numResults := ht.Get(key, results, 1);
    first := results[0];
  }

  /** The erase loop of `test.c`: each key is erased, then looked up. */
  method EraseAll(ht: HashTable, keys: seq<int32>) returns (erasedCounts: seq<nat>)
    requires ht.Valid()
    modifies ht.Repr
    ensures ht.Valid() && ht.Repr == old(ht.Repr)
    ensures |erasedCounts| == |keys| && forall i :: 0 <= i < |keys| ==> erasedCounts[i] == 0
  {
    var results := new int32[1];
    erasedCounts := [];
    for i := 0 to |keys|
      invariant ht.Valid() && ht.Repr == old(ht.Repr) && results !in ht.Repr
      invariant |erasedCounts| == i && forall k :: 0 <= k < i ==> erasedCounts[k] == 0
    {
      var numResults := EraseThenGet(ht, keys[i], results);
      erasedCounts := erasedCounts + [numResults];
    }
  }

  /** One round of the erase loop of `test.c`: once `key` is erased, `get` finds no match for it. */
  method EraseThenGet(ht: HashTable, key: int32, results: array<int32>) returns (numResults: nat)
    requires ht.Valid() && results.Length >= 1 && results !in ht.Repr
    modifies ht.Repr, results
    ensures ht.Valid() && ht.Repr == old(ht.Repr)
    ensures numResults == 0
  {
    ht.Erase(key);
    NoKeyMatches(ht.BucketOf(key), key);
    numResults := ht.Get(key, results, 1);
  }
}
