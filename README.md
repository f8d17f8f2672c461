# Multi-value hash table, growable vector, chunk list and element counting

A Dafny model of the core of a C course project and a small Rust exercise:

- **`Vector`** (`vector.dfy`): the growable vector of `p0/vector.c`. It is a class
  holding an `array` of 64-bit cells plus `len` and `capacity` fields. The
  capacity starts at the least power of two that is at least 4 and at least
  the request, and `vec_push` doubles it when the buffer is full. `vec_pop`,
  `vec_index` and `vec_swap` work on the live prefix `arr[..len]`. The drivers
  of `p0/test_vec.c` are methods whose contracts state what that file asserts.
- **`HashTable`** (`hash_table.dfy`): the table of `p0/hash_table.c`. It has a
  fixed, power-of-two number of `Vec` buckets of packed (key, value) words,
  selected by Fibonacci hashing, and an entry count. The hashing and packing
  are functions with lemmas (range, round trips). `htbl_new`, `htbl_put`,
  `htbl_get`, `htbl_erase` and `htbl_size` are a constructor, methods and a
  function of a class. Its invariant ties every buffer to a ghost sequence of
  bucket contents: every entry lies in the bucket its key selects, and the
  count is the total length of the buckets.
- **`HashTableDrivers`** (`hash_table_drivers.dfy`): `test_basic_map` of
  `p0/main.c` (including its truncate-and-retry use of `get`) and the three
  loops of `p0/test.c`, with `rand()` replaced by parameters.
- **`ChunkList`** (`chunk_list.dfy`): the nodes and cursor of
  `p0/chunk_list.h`. A list is the sequence of its nodes from the head, a
  pointer to a node is its position (position `|list|` is `NULL`), and the
  cursor is a class with `node` and `idx` fields. `chl_iter_next` is proved
  against the ghost sequence of cells still to come. The iterator starts with
  the concatenation of every node's `arr[0..len)` still to come, and each call
  yields its head or reports `false` once it is empty.
- **`CountNums`** (`count_nums.dfy`): the four counting functions of
  `random/count-nums/src/lib.rs` and their identical copies in `src/main.rs`,
  plus the `Algorithm` dispatch. Each counting member models both copies
  (`src/lib.rs:1-27` and `src/main.rs:41-67`); the table cites `lib.rs`.
  The two iterator chains are functions and the
  two `for` loops are methods. All four are proved equal to `count_count`.
- **`MachineWords`** (`machine_words.dfy`): the fixed-width integers, the
  casts, the wrapping multiplication and right shift of `uint64_t`, and
  integer replacements for the `pow`/`ceil`/`log2`/`floor` sizing
  expressions.

Machine words are bounded integers (`uint64`, `int32`, ...), not bit-vectors:
- `<<` by 32 is a product with 2^32 that cannot wrap here;
- `>>` by `n` is `n` halvings, proved equal to division by 2^n;
- the wrapped product is `% 2^64`, and `& UINT32_MAX` is `% 2^32`;
- a `|` of two halves that share no bit is `+`;
- each cast is reduction modulo 2^32 or 2^64. A signed cast of a value above
  the signed maximum is implementation-defined in C11 (section 6.3.1.3); the
  model reads it as two's complement, as GCC and Clang define it.

Where the code and its design description disagree, the model follows the code:
- `htbl_new` rounds the expected capacity up to a power of two and floors the
  result at 8. It applies no oversize factor. An expected capacity of 0 gives
  `pow(2, -inf) == 0` and then 8.
- `vec_new(0)` allocates 4 cells. It does not defer allocation, whatever the
  comment at `p0/vector.h:23-28` says.
- `p0/hash_table.h` declares an older linked-list interface that
  `hash_table.c` does not implement. The model follows `hash_table.c`.
- `vec_index` returns a pointer in `vector.c` but a value in `vector.h` and
  at every call site. It is modelled as returning the element.
- `pr_hash` with a one-bit-or-more domain is the only case the code defines.
  A shift by 64 (domain 0) is undefined in C, not 0.

The loops of `htbl_new`, `htbl_get` and `htbl_erase` are module-level methods
(`NewBuckets`, `ScanBucket`, `EraseFromBucket`, with the swap-and-pop step in
`SwapPopStep`). The table methods call them on the key's bucket. The vector's
power-of-two capacity is carried by the contracts of its constructor and of
`Push` rather than by `Vec.Valid` (see "Left out").

## Model

| member | source | states |
|---|---|---|
| MachineWords.AsUnsigned32 | p0/hash_table.c:131 | `(uint32_t)x` is congruent to `x` modulo 2^32 and is `x` itself when `x` is not negative |
| MachineWords.AsSigned32 | p0/hash_table.c:136 | `(int32_t)u` is congruent to `u` modulo 2^32 and is negative exactly when `u >= 2^31` |
| MachineWords.AsUnsigned64 | p0/hash_table.c:15 | `(uint64_t)x` of a sign-extended key is congruent to `x` modulo 2^64 and is `x` itself when `x` is not negative |
| MachineWords.AsSigned64 | p0/test_vec.c:24-25 | the `.sig` view of a cell is congruent to its `.unsig` view modulo 2^64 and is negative exactly when the cell is at least 2^63 |
| MachineWords.Signed32RoundTrip | p0/hash_table.c:130-142 | `(int32_t)(uint32_t)x == x` and `(uint32_t)(int32_t)u == u` for every 32-bit value |
| MachineWords.NextPow2IsLeast | p0/vector.c:11 | `pow(2, ceil(log2(n)))` in integers is a power of two, at least `n`, and no larger than any power of two at least `n` |
| MachineWords.Log2FloorOfPow2 | p0/hash_table.c:38 | `floor(log2(2^e)) == e`, so the cached exponent is exact |
| MachineWords.ShiftRightBound | p0/hash_table.c:122-124 | shifting a `w`-bit value right by `n <= w` leaves a value below `2^(w-n)` |
| MachineWords.ShiftRightIsDiv | p0/hash_table.c:135-137 | `x >> n == x / 2^n` |
| Vector.NewCapacity | p0/vector.c:8-11 | the capacity `vec_new(c)` picks is a power of two, at least 4 and at least `c` |
| Vector.NewCapacityIsLeast | p0/vector.c:8-11 | no power of two smaller than that capacity is at least both 4 and `c` |
| Vector.Vec.constructor | p0/vector.c:7-15 | a fresh buffer of `NewCapacity(c)` cells, `len == 0`, no elements, power-of-two capacity |
| Vector.Vec.Realloc | p0/vector.c:19-26 | a fresh buffer of twice the capacity whose first `old capacity` cells are the old buffer's; `len` and the elements are unchanged |
| Vector.Vec.Push | p0/vector.c:28-35 | the elements become the old ones plus `el` at the end; the capacity doubles exactly when `len == capacity`; a power-of-two capacity stays one; the buffer is replaced only on growth |
| Vector.Vec.Pop | p0/vector.c:37-42 | requires `len != 0`; returns the last element, drops it, and touches only `len` |
| Vector.Vec.Index | p0/vector.c:44-47 | requires `idx < len`; returns element `idx` |
| Vector.Vec.Swap | p0/vector.c:49-54 | requires both indices `< len`; the buffer is the old one with cells `idx1` and `idx2` exchanged, every other cell and `len` unchanged, the elements a permutation of the old |
| Vector.EmptyStartScenario | p0/test_vec.c:6-16 | `vec_new(0)` then one push has capacity 4 and length 1; the pop returns 50 and leaves length 0 |
| Vector.PushPopSwapScenario | p0/test_vec.c:18-49 | `vec_new(3)` has capacity 4; 20 pushes give length 20 and capacity 32; the pops return `-19, ..., 0` in reverse pushing order and keep capacity 32; swap then pop on 56, 57, 58 returns 57 and leaves 56, 58 |
| Vector.PushNegatives | p0/test_vec.c:23-28 | after pushing `0, -1, ..., -19` through `.sig`, length 20, capacity 32, and element `i` reads back as `-i` |
| Vector.PopAll | p0/test_vec.c:30-35 | popping until empty returns `-(len - 1)` each time and keeps the capacity and the buffer |
| Vector.SwapThenPop | p0/test_vec.c:38-48 | on an empty vector, pushes of 56, 57, 58, `swap(1, 2)` and `pop` return 57 and leave 56, 58 at indices 0 and 1 and length 2 |
| Vector.PushThree | p0/test_vec.c:40-42 | the three pushes leave an empty vector holding 56, 57, 58, in the buffer it already had |
| HashTable.Hash | p0/hash_table.c:120-124 | `pr_hash(key, p) < 2^p` for every key and `1 <= p <= 64` |
| HashTable.HashOneBit | p0/main.c:12-29 | with a one-bit domain every key hashes to 0 or 1 |
| HashTable.MakeKeyVal | p0/hash_table.c:126-132 | the upper 32 bits of the packed word are the key's 32-bit pattern and the lower 32 bits the value's |
| HashTable.ParseKey | p0/hash_table.c:134-137 | the key read back has, as its 32-bit pattern, the upper half of the word |
| HashTable.ParseVal | p0/hash_table.c:139-142 | the value read back has, as its 32-bit pattern, the lower half of the word |
| HashTable.PackRoundTrip | p0/hash_table.c:130-142 | `pr_parse_key(pr_make_key_val(k, v)) == k` and `pr_parse_val(pr_make_key_val(k, v)) == v` for every pair of `int32_t` |
| HashTable.UnpackRoundTrip | p0/hash_table.c:130-142 | every 64-bit word is the packing of its parsed key and value |
| HashTable.PackedEntry | p0/hash_table.c:130-142 | a word parses to (k, v) exactly when it is the packing of (k, v) |
| HashTable.AppendEntry | p0/hash_table.c:74-83 | appending an entry extends the matches, the other entries and the matched values by that entry exactly when its key matches (resp. does not) |
| HashTable.AppendMatches | p0/hash_table.c:74-83 | appending an entry adds it to the end of the matches exactly when its key is the key |
| HashTable.AppendOthers | p0/hash_table.c:96-101 | appending an entry adds it to the end of the other entries exactly when its key is not the key |
| HashTable.AppendValues | p0/hash_table.c:74-83 | appending an entry adds its value to the end of the values under the key exactly when its key is the key |
| HashTable.MatchCounts | p0/hash_table.c:74-83 | one value per match, and matches plus others make up the bucket |
| HashTable.OthersCount | p0/hash_table.c:96-107 | as a multiset, the other entries are the bucket's entries under other keys |
| HashTable.OthersOfSameMultiset | p0/hash_table.c:102-105 | reordering a bucket does not change its other entries as a multiset |
| HashTable.NoKeyMatches | p0/hash_table.c:91-108 | a bucket has no entry under the key exactly when it has no match and no matched value, and then it is its own other entries |
| HashTable.PutThenValues | p0/hash_table.c:50-55 | after a put, the values under the key gain the new value last, and the values under any other key are unchanged |
| HashTable.SumLensUpdate | p0/hash_table.c:54 | replacing one bucket changes the total length by the difference of the bucket lengths |
| HashTable.BucketCount | p0/hash_table.c:24-28 | the bucket count of `htbl_new(c)` is a power of two, at least 8 and at least `c` |
| HashTable.BucketCountIsLeast | p0/hash_table.c:24-28 | no power of two smaller than that bucket count is at least both 8 and `c` |
| HashTable.BucketCountLog2 | p0/hash_table.c:36-39 | the cached `num_buckets_log2` is the exponent of the bucket count, between 3 and 63 |
| HashTable.BucketIndex | p0/hash_table.c:14-17 | the bucket a key hashes to is below the bucket count |
| HashTable.HashedAfterAppend | p0/hash_table.c:50-55 | appending an entry to the bucket its key selects keeps every entry in its own bucket |
| HashTable.HashedAfterShrink | p0/hash_table.c:91-108 | shrinking a bucket to part of its entries keeps every entry in its own bucket |
| HashTable.SwapRemove | p0/hash_table.c:102-105 | swap-with-last then pop at `idx` drops one element, keeps every other position, and moves the last element to `idx` |
| HashTable.SwapRemoveOthers | p0/hash_table.c:102-105 | removing a match by swap-and-pop keeps the other entries as a multiset |
| HashTable.EraseStep | p0/hash_table.c:96-107 | one step of the erase loop keeps its invariant: the prefix before `idx` has no match and the other entries are kept as a multiset |
| HashTable.EraseDone | p0/hash_table.c:96-107 | at the end of the erase loop the bucket has no match, holds exactly the other entries, and has lost exactly the matches |
| HashTable.EmptyValid | p0/hash_table.c:32-39 | a table of empty buckets with count 0 meets the invariant |
| HashTable.PutKeeps | p0/hash_table.c:50-55 | a put keeps the invariant with the count one higher |
| HashTable.EraseKeeps | p0/hash_table.c:91-108 | an erase keeps the invariant with the count lower by the number of entries removed |
| HashTable.KeyOnlyInItsBucket | p0/hash_table.c:14-18 | under the invariant no other bucket holds an entry under the key, so one bucket's scan sees all of them |
| HashTable.HashTable.GetBucket | p0/hash_table.c:14-18 | `pr_get_bucket`: the key's bucket index is below the bucket count |
| HashTable.HashTable.constructor | p0/hash_table.c:24-40 | `htbl_new(c)`: `BucketCount(c)` buckets with the exponent cached, count 0, every bucket empty |
| HashTable.HashTable.Put | p0/hash_table.c:50-55 | the key's bucket gains the packed pair at its end, the count rises by 1, every other bucket is unchanged, and the invariant holds |
| HashTable.HashTable.Get | p0/hash_table.c:67-86 | returns the number of entries under the key; slots `0..min(count, num_values)` get those entries' values in bucket order; no other slot is written |
| HashTable.HashTable.Erase | p0/hash_table.c:91-108 | the key's bucket has no entry under the key and keeps the others as a multiset; the count drops by the number of matches; other buckets are unchanged; the invariant holds |
| HashTable.HashTable.Size | p0/hash_table.c:110-113 | the count equals the total length of the buckets |
| HashTable.NewBuckets | p0/hash_table.c:32-34 | `n` fresh, empty, valid vectors of capacity 4, no two sharing an object or a buffer |
| HashTable.ScanBucket | p0/hash_table.c:73-85 | the scan of `htbl_get`: the count of matches, the first `num_values` values in order, no other slot written |
| HashTable.EraseFromBucket | p0/hash_table.c:95-107 | the erase loop: no match remains, the others survive as a multiset, and the number removed is the number of matches |
| HashTable.SwapPopStep | p0/hash_table.c:102-105 | `vec_swap` with the last element (when there are two or more) then `vec_pop` makes the bucket `SwapRemove` of itself |
| HashTableDrivers.BasicMapScenario | p0/main.c:38-67 | two puts under key 5 give size 2; the retrying `get` reports 2 and returns -19, -20; after `erase` the size is 0 |
| HashTableDrivers.GetWithRetry | p0/main.c:48-56 | `get` into `num_values` slots, then again into as many slots as it reported, returns every value under the key in bucket order |
| HashTableDrivers.GetInto | p0/main.c:49-51 | one `get` into a fresh buffer of `num_values` slots reports every match and fills its slots with the first `min(count, num_values)` values under the key |
| HashTableDrivers.BasicMapBucket | p0/main.c:44-46 | the bucket after the two puts reports the values -19, -20 and two matches |
| HashTableDrivers.InsertedNone | p0/test.c:14 | a fresh table holds no value under any key |
| HashTableDrivers.PutThenGet | p0/hash_table.c:50-86 | after a put, the values `get` reports under a key gain the new value exactly when the key is the one put |
| HashTableDrivers.InsertStep | p0/test.c:23-28 | with distinct keys, after the first `i` puts each of those keys holds exactly its own value and the later keys hold nothing |
| HashTableDrivers.PutGetEraseScenario | p0/test.c:11-64 | for distinct keys, every probed `get` finds a match and writes the probed key's value, and each `get` after an `erase` reports 0 |
| HashTableDrivers.InsertAll | p0/test.c:23-28 | the put loop leaves each key holding exactly its own value |
| HashTableDrivers.ProbeAll | p0/test.c:34-43 | every probe reports a match and writes the probed key's value |
| HashTableDrivers.GetFirst | p0/test.c:35-42 | a key holding one value reports one match and writes that value into the one-slot buffer |
| HashTableDrivers.EraseAll | p0/test.c:48-59 | after erasing each key, `get` on it reports 0 |
| HashTableDrivers.EraseThenGet | p0/test.c:49-52 | `erase` then `get` of the same key reports 0 |
| ChunkList.NodeNew | p0/chunk_list.h:19-26 | the new node has length 1, holds `init_val` first and is followed by `next`; the list then yields `init_val` followed by what `next` yields |
| ChunkList.RemainingFromStart | p0/chunk_list.h:41-43 | a cursor at the head, index 0, has the whole list still to come |
| ChunkList.AdvanceKeepsRemaining | p0/chunk_list.h:46-49 | moving from the end of a node to the start of the next does not change what is still to come |
| ChunkList.StepRemaining | p0/chunk_list.h:53-54 | inside a node, the cell at `idx` is the next to come, followed by what comes from `idx + 1` |
| ChunkList.ChunkListIter.constructor | p0/chunk_list.h:41-43 | `chl_iter_new(head)` is at the head with `idx == 0`, and the cells to come are every node's `arr[0..len)` in list order |
| ChunkList.ChunkListIter.Next | p0/chunk_list.h:45-55 | at the end of a node, moves to the next node at index 0; returns false exactly when past the last node, leaving `*result` unwritten; otherwise returns `arr[idx]` and adds 1 to `idx`; the result is the first cell still to come, and false comes exactly when none is left |
| ChunkList.TwoNodeScenario | p0/chunk_list.h:19-55 | a list built by two `chl_node_new` calls yields 5, then 7, then false |
| CountNums.Filter | random/count-nums/src/lib.rs:2 | the filtered elements are all above the threshold, and as a multiset they are exactly the elements above it |
| CountNums.CountCount | random/count-nums/src/lib.rs:1-3 | the count is at most the length; it is 0 exactly when no element is strictly greater, and the length exactly when all are |
| CountNums.CountAppend | random/count-nums/src/lib.rs:11-27 | one more element adds 1 to the count exactly when it is strictly greater |
| CountNums.FoldLeft | random/count-nums/src/lib.rs:6-8 | `fold` works from the front: the last element is combined last, with the fold of all the elements before it |
| CountNums.CountStep | random/count-nums/src/lib.rs:8 | the closure adds exactly `(num > geq) as usize` to the accumulator |
| CountNums.FoldCounts | random/count-nums/src/lib.rs:5-9 | folding the closure from `acc` gives `acc` plus the count |
| CountNums.CountFold | random/count-nums/src/lib.rs:5-9 | `count_fold` equals `count_count` |
| CountNums.CountForIf | random/count-nums/src/lib.rs:11-19 | `count_for_if` equals `count_count` on every input |
| CountNums.BoolAsUsize | random/count-nums/src/lib.rs:24 | `b as usize` is at most 1, and is 1 exactly when `b` holds |
| CountNums.CountFor | random/count-nums/src/lib.rs:21-27 | `count_for`, which adds `(num > geq) as usize` per element, equals `count_count` on every input |
| CountNums.RunAlgorithm | random/count-nums/src/main.rs:25-30 | whichever `Algorithm` is chosen, the count returned is `count_count` of the input |

## Left out

- Memory management: `vec_free`, `htbl_free`, `chl_node_free_all`, and the `assert`s on `malloc`/`realloc` results. Allocation is `new`; freeing has nothing to verify.
- Floating point: `pow(2., ceil(log2(x)))` and `floor(log2(x))` are exact integer functions. With a correctly rounded `log2`, they agree with C for requests up to 2^49. From 2^49 + 1 on, C's `log2` of a request just above a power of two rounds down to that exponent. C then picks that power of two, which is below the request, while the model picks the next one.
- Vector.NewCapacity: is at least the request for every request, which `vec_new` (p0/vector.c:11) does not guarantee above 2^49, as the previous line explains.
- HashTable.BucketCount: is at least the expected capacity for every capacity, which `htbl_new` (p0/hash_table.c:25) does not guarantee above 2^49, for the same reason.
- `bv64`: cells and words are bounded integers, with each C operation written out as integer arithmetic.
- The `Generic` pointer view (`void *ptr`) is not used by any core file.
- Vector.Vec.Realloc: the `new_capacity > capacity` check on `size_t` overflow (p0/vector.c:21) is not modelled, because capacities are unbounded here. Reaching that check takes 2^63 cells.
- HashTable.HashTable.constructor: requires an expected capacity of at most 2^63, because beyond it `pow(2., ...)` does not fit the `uint64_t` it is assigned to.
- HashTable.Hash: requires a domain of 1 to 64 bits, because a shift by 64 or more is undefined in C.
- HashTable.HashTable.Erase: states the surviving entries of the bucket as a multiset, not their order after the swaps. `SwapPopStep` gives the exact order of one step.
- HashTable.HashTable.Get: does not change the table, which follows from its `modifies` clause naming only `values`; no `ensures` restates it.
- The hash-balance check of p0/main.c:31-34 is statistical, not a property of every input.
- Drivers: `rand`/`srand` are parameters, `printf` is dropped, and the `realloc` of the result buffer in `test_basic_map` is a fresh array. HashTableDrivers.PutGetEraseScenario requires distinct keys: with a repeated key, `get` reports the earlier value first, and the value check in p0/test.c fails when a probe draws the later index.
- `htbl_hash` and `htbl_deallocate`, which the drivers call, do not exist in `hash_table.c`. `htbl_hash` is modelled as `pr_hash`, and `htbl_deallocate` is left out with the other freeing. `htbl_put` and `htbl_erase` return nothing, so the `== 0` comparisons p0/test.c makes on them are modelled as plain calls. p0/benchmark.c uses the older interface of `hash_table.h` and is not part of this model.
- Vector.Vec.Valid: does not include that the capacity is a power of two. The constructor and `Push` promise it instead, which covers every vector built through `vec_new` and `vec_push`. The buckets of a table are such vectors, but `HashTable.HashTable.Valid` does not say that their capacity is a power of two, and nothing in `hash_table.c` relies on it.
- ChunkList.ChunkListIter.Next: every node must have `1 <= len <= 6`, as `chl_node_new` makes it, because a zero-length node after another would be read at `arr[0]` past its length. Nothing in `chunk_list.h` changes `len` after `chl_node_new`.
- ChunkList.NodeNew: the cells past `arr[0]`, which `malloc` leaves unset, are a parameter.
- `random/count-nums`: the command line, the JSON input, the timing in `main`, and `benches/counting.rs`. Counts are `nat`. A count never exceeds the slice length, so the `usize` counter cannot overflow.
