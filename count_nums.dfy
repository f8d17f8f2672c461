/**
 * The four counting functions of random/count-nums (src/lib.rs, copied
 * verbatim into src/main.rs) and the `Algorithm` dispatch of src/main.rs.
 * Each counts the elements of `nums` that are strictly greater than the
 * threshold (named `geq` in the source, but compared with `>`).
 */
module CountNums {
  import opened MachineWords

  /** `usize` on a 64-bit target. */
  type usize = uint64

  /** `.filter(|&num| num > gt)`: the elements above `gt`, in order. */
  function Filter(nums: seq<usize>, gt: usize): (r: seq<usize>)
    ensures |r| <= |nums|
    ensures forall i :: 0 <= i < |r| ==> r[i] > gt
    ensures forall x :: multiset(r)[x] == if x > gt then multiset(nums)[x] else 0
  {
    if nums == [] then []
    else
      assert nums == [nums[0]] + nums[1..];
      (if nums[0] > gt then [nums[0]] else []) + Filter(nums[1..], gt)
  }

  /**
   * `count_count`: the length of the filtered sequence. No element above
   * `gt` means 0, and every element above `gt` means all of them.
   */
  function CountCount(nums: seq<usize>, gt: usize): (n: nat)
    ensures n <= |nums|
    ensures n == 0 <==> forall i :: 0 <= i < |nums| ==> nums[i] <= gt
    ensures n == |nums| <==> forall i :: 0 <= i < |nums| ==> nums[i] > gt
  {
    FilterEmpty(nums, gt);
    FilterAll(nums, gt);
    |Filter(nums, gt)|
  }

  lemma {:induction false} FilterEmpty(nums: seq<usize>, gt: usize)
    ensures Filter(nums, gt) == [] <==> forall i :: 0 <= i < |nums| ==> nums[i] <= gt
  {
    if nums != [] {
      FilterEmpty(nums[1..], gt);
      if forall i :: 0 <= i < |nums[1..]| ==> nums[1..][i] <= gt {
        if nums[0] <= gt {
          forall i | 0 <= i < |nums| ensures nums[i] <= gt {
            if i > 0 { assert nums[i] == nums[1..][i - 1]; }
          }
        }
      } else {
        var i :| 0 <= i < |nums[1..]| && nums[1..][i] > gt;
        assert nums[i + 1] > gt;
      }
    }
  }

  lemma {:induction false} FilterAll(nums: seq<usize>, gt: usize)
    ensures |Filter(nums, gt)| == |nums| <==> forall i :: 0 <= i < |nums| ==> nums[i] > gt
  {
    if nums != [] {
      FilterAll(nums[1..], gt);
      if forall i :: 0 <= i < |nums[1..]| ==> nums[1..][i] > gt {
        if nums[0] > gt {
          forall i | 0 <= i < |nums| ensures nums[i] > gt {
            if i > 0 { assert nums[i] == nums[1..][i - 1]; }
          }
        }
      } else {
        var i :| 0 <= i < |nums[1..]| && nums[1..][i] <= gt;
        assert nums[i + 1] <= gt;
      }
    }
  }

  /** Counting a sequence extended by one element adds 1 exactly when that element is above `gt`. */
  lemma {:induction false} CountAppend(nums: seq<usize>, x: usize, gt: usize)
    ensures CountCount(nums + [x], gt) == CountCount(nums, gt) + (if x > gt then 1 else 0)
  {
    if nums != [] {
      assert (nums + [x])[1..] == nums[1..] + [x];
      CountAppend(nums[1..], x, gt);
    }
  }

  /**
   * `Iterator::fold` over a sequence, from the front: the last element is
   * combined last, with the fold of everything before it.
   */
  function FoldLeft<A>(nums: seq<usize>, init: A, f: (A, usize) -> A): (r: A)
    ensures nums != [] ==> r == f(FoldLeft(nums[..|nums| - 1], init, f), nums[|nums| - 1])
    decreases |nums|
  {
    if nums == [] then init
    else
      assert |nums| >= 2 ==> nums[1..][..|nums| - 2] == nums[..|nums| - 1][1..];
      FoldLeft(nums[1..], f(init, nums[0]), f)
  }

  /**
   * The closure of `count_fold`: add 1 for an element above `gt`, the same
   * step as `count_for`'s `(num > geq) as usize`.
   */
  function CountStep(gt: usize): (step: (nat, usize) -> nat)
    ensures forall acc: nat, num: usize :: step(acc, num) == acc + BoolAsUsize(num > gt)
  {
    (acc: nat, num: usize) => if num > gt then acc + 1 else acc
  }

  /** Folding `CountStep` from `acc` adds the count to `acc`. */
  lemma {:induction false} FoldCounts(nums: seq<usize>, gt: usize, acc: nat)
    ensures FoldLeft(nums, acc, CountStep(gt)) == acc + CountCount(nums, gt)
  {
    if nums != [] {
      FoldCounts(nums[1..], gt, CountStep(gt)(acc, nums[0]));
    }
  }

  /** `count_fold`: the same count as `count_count`. */
  function CountFold(nums: seq<usize>, gt: usize): (n: nat)
    ensures n == CountCount(nums, gt)
  {
    FoldCounts(nums, gt, 0);
    FoldLeft(nums, 0, CountStep(gt))
  }

  /** `count_for_if`: a loop that adds 1 under an `if`; the same count as `count_count`. */
  method CountForIf(nums: seq<usize>, gt: usize) returns (count: nat)
    ensures count == CountCount(nums, gt)
  {
    count := 0;
    for i := 0 to |nums|
      invariant count == CountCount(nums[..i], gt)
    {
      assert nums[..i + 1] == nums[..i] + [nums[i]];
      CountAppend(nums[..i], nums[i], gt);
      if nums[i] > gt {
        count := count + 1;
      }
    }
    assert nums[..|nums|] == nums;
  }

  /** `(b) as usize`: 1 for `true`, 0 for `false`. */
  function BoolAsUsize(b: bool): (n: usize)
    ensures n <= 1 && (n == 1 <==> b)
  {
    if b then 1 else 0
  }

  /** `count_for`: a loop that adds `(num > gt) as usize`; the same count as `count_count`. */
  method CountFor(nums: seq<usize>, gt: usize) returns (count: nat)
    ensures count == CountCount(nums, gt)
  {
    count := 0;
    for i := 0 to |nums|
      invariant count == CountCount(nums[..i], gt)
    {
      assert nums[..i + 1] == nums[..i] + [nums[i]];
      CountAppend(nums[..i], nums[i], gt);
      count := count + BoolAsUsize(nums[i] > gt);
    }
    assert nums[..|nums|] == nums;
  }

  /** The `algo` argument of src/main.rs. */
  datatype Algorithm = Count | Fold | ForIf | ForNoIf

  /**
   * The `match` of src/main.rs: each algorithm runs its own counting
   * function, and every choice reports the same count.
   */
  method RunAlgorithm(algo: Algorithm, nums: seq<usize>, gt: usize) returns (count: nat)
    ensures count == CountCount(nums, gt)
  {
    match algo {
      case Count => count := CountCount(nums, gt);
      case Fold => count := CountFold(nums, gt);
      case ForIf => count := CountForIf(nums, gt);
      case ForNoIf => count := CountFor(nums, gt);
    }
  }
}
