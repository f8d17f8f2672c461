/**
 * The growable vector of p0/vector.c: a doubling buffer of `Generic` cells
 * with push, pop, index and swap. Its abstract value is the live prefix
 * `arr[..len]`; the cells in `[len, capacity)` hold whatever was there before.
 */
module Vector {
  import opened MachineWords

  /** No vector is ever allocated with fewer cells than this. */
  const MIN_CAPACITY: nat := 4

  /**
   * The capacity `vec_new` allocates: the request, raised to 4, rounded up to
   * a power of two.
   */
  function NewCapacity(requested: nat): (capacity: nat)
    ensures IsPowerOfTwo(capacity)
    ensures MIN_CAPACITY <= capacity && requested <= capacity
  {
    NextPow2IsLeast(if requested < MIN_CAPACITY then MIN_CAPACITY else requested);
    NextPow2(if requested < MIN_CAPACITY then MIN_CAPACITY else requested)
  }

  /** No smaller power of two than `NewCapacity(requested)` is at least both 4 and the request. */
  lemma NewCapacityIsLeast(requested: nat)
    ensures forall e: nat :: MIN_CAPACITY <= Pow2(e) && requested <= Pow2(e) ==> NewCapacity(requested) <= Pow2(e)
  {
    NextPow2IsLeast(if requested < MIN_CAPACITY then MIN_CAPACITY else requested);
  }

  class Vec {
    var capacity: nat
    var len: nat
    var arr: array<Generic>

    /**
     * The buffer has `capacity` cells, no fewer than 4, of which `len` are
     * live. That the capacity is also a power of two is kept separately: the
     * constructor establishes it and `Push` preserves it.
     */
    ghost predicate Valid()
      reads this
    {
      arr.Length == capacity && len <= capacity && MIN_CAPACITY <= capacity
    }

    /** The live elements, in order. */
    ghost function Elements(): seq<Generic>
      reads this, arr
      requires Valid()
    {
      arr[..len]
    }

    /** `vec_new`: an empty vector whose capacity is `NewCapacity(requested)`. */
    constructor (requested: nat)
      ensures Valid() && fresh(arr) && IsPowerOfTwo(capacity)
      ensures len == 0 && capacity == NewCapacity(requested) && Elements() == []
    {
      var c := if requested < MIN_CAPACITY then MIN_CAPACITY else requested;
      c := NextPow2(c);
      assert c == NewCapacity(requested);
      arr := new Generic[c];
      capacity := c;
      len := 0;
    }

    /** `pr_vec_realloc`: a fresh buffer of twice the capacity holding the old buffer's cells. */
    method Realloc()
      requires Valid()
      modifies this
      ensures Valid() && fresh(arr)
      ensures capacity == 2 * old(capacity) && len == old(len)
      ensures arr[..old(capacity)] == old(arr[..])
      ensures Elements() == old(Elements())
    {
      var newCapacity := capacity * 2;
      var res := new Generic[newCapacity](i reads this, arr =>
        if 0 <= i < arr.Length then arr[i] else 0);
      arr := res;
      capacity := newCapacity;
    }

    /** `vec_push`: doubles the capacity when the buffer is full, then appends `el`. */
    method Push(el: Generic)
      requires Valid()
      modifies this, arr
      ensures Valid()
      ensures Elements() == old(Elements()) + [el]
      ensures capacity == if old(len) == old(capacity) then 2 * old(capacity) else old(capacity)
      ensures IsPowerOfTwo(old(capacity)) ==> IsPowerOfTwo(capacity)
      ensures old(len) < old(capacity) ==> arr == old(arr)
      ensures old(len) == old(capacity) ==> fresh(arr)
    {
      if len == capacity {
        DoublePowerOfTwo(capacity);
        Realloc();
      }
      arr[len] := el;
      len := len + 1;
    }

    /** `vec_pop`: removes and returns the last element; the capacity stays. */
    method Pop() returns (el: Generic)
      requires Valid() && len != 0
      modifies this`len
      ensures Valid()
      ensures el == old(Elements())[old(len) - 1]
      ensures Elements() == old(Elements())[..old(len) - 1]
    {
      el := arr[len - 1];
      len := len - 1;
    }

    /** `vec_index`: the element at `idx`. */
    method Index(idx: nat) returns (el: Generic)
      requires Valid() && idx < len
      ensures el == Elements()[idx]
    {
      el := arr[idx];
    }

    /** `vec_swap`: exchanges the cells at `idx1` and `idx2`; every other cell and `len` stay. */
    method Swap(idx1: nat, idx2: nat)
      requires Valid() && idx1 < len && idx2 < len
      modifies arr
      ensures Valid()
      ensures arr[..] == old(arr[..])[idx1 := old(arr[idx2])][idx2 := old(arr[idx1])]
      ensures Elements() == old(Elements())[idx1 := old(Elements())[idx2]][idx2 := old(Elements())[idx1]]
      ensures multiset(Elements()) == multiset(old(Elements()))
    {
      var temp := arr[idx1];
      arr[idx1] := arr[idx2];
      arr[idx2] := temp;
    }
  }

  /**
   * The first block of p0/test_vec.c: a vector requested with capacity 0
   * still gets 4 cells, and pushing then popping 50 gives 50 back.
   */
  method EmptyStartScenario() returns (capacity: nat, len: nat, popped: Generic, lenAfter: nat)
    ensures capacity == 4 && len == 1 && popped == 50 && lenAfter == 0
  {
    var v := new Vec(0);
    v.Push(50);
    capacity, len := v.capacity, v.len;
    popped := v.Pop();
    lenAfter := v.len;
  }

  /**
   * The rest of p0/test_vec.c: `vec_new(3)` has capacity 4; twenty pushes of
   * `-num` (through `.sig`) give length 20 and capacity 32 with each value
   * readable at its index; popping everything returns them last to first and
   * keeps capacity 32; then on [56, 57, 58], `swap(1, 2)` and `pop` return 57
   * and leave [56, 58].
   */
  method PushPopSwapScenario()
    returns (firstCapacity: nat, pushedLen: nat, pushedCapacity: nat,
             popped: seq<int64>, poppedCapacity: nat, swapPopped: Generic, rest: seq<Generic>)
    ensures firstCapacity == 4 && pushedLen == 20 && pushedCapacity == 32
    ensures |popped| == 20 && forall i :: 0 <= i < 20 ==> popped[i] == i - 19
    ensures poppedCapacity == 32
    ensures swapPopped == 57 && rest == [56, 58]
  {
    var v := new Vec(3);
    NewCapacityIsLeast(3);
    assert NewCapacity(3) <= Pow2(2);
    firstCapacity := v.capacity;
    PushNegatives(v);
    pushedLen, pushedCapacity := v.len, v.capacity;
    popped := PopAll(v);
    poppedCapacity := v.capacity;
    swapPopped, rest := SwapThenPop(v);
  }

  /** The push loop of p0/test_vec.c: `0, -1, ..., -19` pushed through `.sig`, each read back at once. */
  method PushNegatives(v: Vec)
    requires v.Valid() && v.len == 0 && v.capacity == 4
    modifies v, v.arr
    ensures v.Valid() && v.len == 20 && v.capacity == 32 && (v.arr == old(v.arr) || fresh(v.arr))
    ensures forall i :: 0 <= i < 20 ==> AsSigned64(v.Elements()[i]) == -i
  {
    var num := 0;
    while num < 20
      invariant 0 <= num <= 20
      invariant v.Valid() && (v.arr == old(v.arr) || fresh(v.arr))
      invariant v.len == num
      invariant forall i :: 0 <= i < num ==> AsSigned64(v.Elements()[i]) == -i
      invariant v.capacity == if num <= 4 then 4 else if num <= 8 then 8 else if num <= 16 then 16 else 32
    {
      v.Push(AsUnsigned64(-num));
      var got := v.Index(num);
      assert AsSigned64(got) == -num;
      num := num + 1;
    }
  }

  /** The pop loop of p0/test_vec.c: each pop returns `-(len - 1)`, and the capacity stays. */
  method PopAll(v: Vec) returns (popped: seq<int64>)
    requires v.Valid() && v.len == 20
    requires forall i :: 0 <= i < 20 ==> AsSigned64(v.Elements()[i]) == -i
    modifies v
    ensures v.Valid() && v.len == 0 && v.capacity == old(v.capacity) && v.arr == old(v.arr)
    ensures |popped| == 20 && forall i :: 0 <= i < 20 ==> popped[i] == i - 19
  {
    popped := [];
    while v.len != 0
      invariant v.Valid() && v.capacity == old(v.capacity) && v.arr == old(v.arr)
      invariant v.len + |popped| == 20
      invariant forall i :: 0 <= i < v.len ==> AsSigned64(v.Elements()[i]) == -i
      invariant forall i :: 0 <= i < |popped| ==> popped[i] == i - 19
    {
      var expected := -(v.len - 1);
      var got := v.Pop();
      assert AsSigned64(got) == expected;
      popped := popped + [AsSigned64(got)];
    }
  }

  /** The swap block of p0/test_vec.c, on an emptied vector. */
  method SwapThenPop(v: Vec) returns (swapPopped: Generic, rest: seq<Generic>)
    requires v.Valid() && v.len == 0
    modifies v, v.arr
    ensures swapPopped == 57 && rest == [56, 58] && v.len == 2
  {
    PushThree(v);
    v.Swap(1, 2);
    swapPopped := v.Pop();
    var at0 := v.Index(0);
    var at1 := v.Index(1);
    rest := [at0, at1];
  }

  /** The three pushes of the swap block: an empty vector then holds 56, 57, 58 in its own buffer. */
  method PushThree(v: Vec)
    requires v.Valid() && v.len == 0
    modifies v, v.arr
    ensures v.Valid() && v.arr == old(v.arr) && v.Elements() == [56, 57, 58]
  {
    v.Push(56);
    v.Push(57);
    v.Push(58);
  }
}
