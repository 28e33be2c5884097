/** Pointer exercises (task02/indexTask/main.go): a function that adds 10
    through an `*int`, and one that doubles every element through a pointer
    to a slice. Both change the caller's variables in place. */
module Pointers {
  import opened GoBuiltins

  /** The variable an `*int` points to. */
  class IntVar {
    var value: int64

    constructor (v: int64)
      ensures value == v
    {
      value := v;
    }
  }

  /** The value `*nums += 10` stores, with Go's wrap-around. */
  function PlusTen(x: int64): (r: int64)
    ensures x as int + 10 < 0x8000_0000_0000_0000 ==> r as int == x as int + 10
    ensures x as int + 10 >= 0x8000_0000_0000_0000 ==> r as int == x as int + 10 - TWO64
  {
    Wrap(x as int + 10)
  }

  /** Adding 10 loses nothing: subtracting 10 (with wrap-around) undoes it. */
  lemma PlusTenUndo(x: int64)
    ensures Wrap(PlusTen(x) as int - 10) == x
  {
    WrapSubAdd(x, 10, PlusTen(x));
  }

  /** `increase`: adds 10 to the variable `p` points to. */
  method Increase(p: IntVar)
    modifies p
    ensures p.value == PlusTen(old(p.value))
  {
    p.value := Wrap(p.value as int + 10);
  }

  /** The value `x *= 2` stores, with Go's wrap-around. */
  function Twice(x: int64): (r: int64)
    ensures -0x4000_0000_0000_0000 <= x < 0x4000_0000_0000_0000 ==> r as int == 2 * x as int
    ensures r as int % 2 == 0
  {
    Wrap(2 * x as int)
  }

  /** Every element doubled. */
  function Doubled(s: seq<int64>): (r: seq<int64>)
    ensures |r| == |s| && forall k :: 0 <= k < |s| ==> r[k] == Twice(s[k])
  {
    seq(|s|, k requires 0 <= k < |s| => Twice(s[k]))
  }

  /** `doubleSlice`: multiplies each element of the slice `*nums` by 2 in
      place. The pointer adds nothing here, since only elements change, so
      the slice is its backing array. */
  method DoubleSlice(nums: array<int64>)
    modifies nums
    ensures nums[..] == Doubled(old(nums[..]))
  {
    for i := 0 to nums.Length
      invariant forall k :: 0 <= k < i ==> nums[k] == Twice(old(nums[k]))
      invariant forall k :: i <= k < nums.Length ==> nums[k] == old(nums[k])
    {
      nums[i] := Wrap(2 * nums[i] as int);
    }
  }

  /** The program's `main`, without the printing: 5 becomes 15, and
      [1 2 3 4 5 7] becomes [2 4 6 8 10 14]. */
  method PointersExample()
  {
    var a := new IntVar(5);
    Increase(a);
    assert a.value == 15;
    var nums := new int64[6];
    nums[0], nums[1], nums[2], nums[3], nums[4], nums[5] := 1, 2, 3, 4, 5, 7;
    ghost var before := nums[..];
    assert before == [1, 2, 3, 4, 5, 7];
    DoubleSlice(nums);
    assert Twice(1) == 2 && Twice(2) == 4 && Twice(3) == 6;
    assert Twice(4) == 8 && Twice(5) == 10 && Twice(7) == 14;
    assert nums[..] == [2, 4, 6, 8, 10, 14];
  }
}
