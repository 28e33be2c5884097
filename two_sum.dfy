/** Problem 1, "two sum": the indices of two elements that add up to
    `target` (task01/twoSum/main.go). Go adds `int`s with 64-bit wrap-around,
    and so does the model. */
module TwoSum {
  import opened GoBuiltins

  /** Go's `[]int{i, j}`, or `nil` when there is no answer. */
  datatype Answer = Nil | Pair(i: nat, j: nat)

  /** Two distinct positions, in order, whose sum as Go computes it is `target`. */
  predicate Hits(s: seq<int64>, target: int64, i: int, j: int)
  {
    0 <= i < j < |s| && Wrap(s[i] as int + s[j] as int) == target
  }

  /** `twoSum`: tries every pair `i < j` in order and returns the first hit.
      The answer is the lexicographically least pair, and `nil` exactly when
      there is none. `nums` is only read. */
  method TwoSum(nums: array<int64>, target: int64) returns (r: Answer)
    ensures r == Nil <==> forall i, j :: !Hits(nums[..], target, i, j)
    ensures r.Pair? ==> Hits(nums[..], target, r.i, r.j)
    ensures r.Pair? ==> forall i, j :: Hits(nums[..], target, i, j) ==> r.i < i || (r.i == i && r.j <= j)
  {
    for i := 0 to nums.Length
      invariant forall a, b :: 0 <= a < i ==> !Hits(nums[..], target, a, b)
    {
      for j := i + 1 to nums.Length
        invariant forall b :: i < b < j ==> !Hits(nums[..], target, i, b)
      {
        if Wrap(nums[i] as int + nums[j] as int) == target {
          assert Hits(nums[..], target, i, j);
          return Pair(i, j);
        }
      }
    }
    return Nil;
  }

  /** A complement lookup finds exactly the earlier partners: `s[k]` pairs
      with `s[i]` precisely when it equals `target - s[i]` as Go computes it. */
  lemma ComplementHit(s: seq<int64>, target: int64, k: int, i: int)
    requires 0 <= k < i < |s|
    ensures Hits(s, target, k, i) <==> s[k] == Wrap(target as int - s[i] as int)
  {
    WrapSubAdd(s[k], s[i], target);
  }

  /** `seen` maps every value of `s[..i]` to the latest index holding it. */
  ghost predicate Remembers(seen: map<int64, nat>, s: seq<int64>, i: int)
    requires 0 <= i <= |s|
  {
    && (forall v :: v in seen <==> v in s[..i])
    && forall v :: v in seen ==>
      && seen[v] < i
      && s[seen[v]] == v
      && forall k :: seen[v] < k < i ==> s[k] != v
  }

  lemma RemembersStep(seen: map<int64, nat>, s: seq<int64>, i: int)
    requires 0 <= i < |s| && Remembers(seen, s, i)
    ensures Remembers(seen[s[i] := i], s, i + 1)
  {
    assert s[..i + 1] == s[..i] + [s[i]];
  }

  /** `toSumMap`: one pass; before storing `nums[i]` it looks up the
      complement `target - nums[i]` among the values already stored, so the
      partner always comes earlier. Storing overwrites, so the map remembers
      the latest index of each value. The answer's second index is the least
      one that has an earlier partner, and its first index is the latest such
      partner; `nil` exactly when there is no pair. `nums` is only read. */
  method TwoSumMap(nums: array<int64>, target: int64) returns (r: Answer)
    ensures r == Nil <==> forall i, j :: !Hits(nums[..], target, i, j)
    ensures r.Pair? ==> Hits(nums[..], target, r.i, r.j)
    ensures r.Pair? ==> forall i, j :: Hits(nums[..], target, i, j) ==> r.j <= j
    ensures r.Pair? ==> forall i :: r.i < i < r.j ==> !Hits(nums[..], target, i, r.j)
  {
    ghost var s := nums[..];
    var seen: map<int64, nat> := map[];
    for i := 0 to nums.Length
      invariant Remembers(seen, s, i)
      invariant forall a, b :: b < i ==> !Hits(s, target, a, b)
    {
      var complement := Wrap(target as int - nums[i] as int);
      if complement in seen {
        var idx := seen[complement];
        ComplementHit(s, target, idx, i);
        forall a | idx < a < i
          ensures !Hits(s, target, a, i)
        {
          ComplementHit(s, target, a, i);
        }
        assert s == nums[..] && Hits(s, target, idx, i);
        return Pair(idx, i);
      }
      forall a | 0 <= a < i
        ensures !Hits(s, target, a, i)
      {
        ComplementHit(s, target, a, i);
        assert s[..i][a] == s[a];
      }
      RemembersStep(seen, s, i);
      seen := seen[nums[i] := i];
    }
    return Nil;
  }

  /** The first documented example: [2,7,11,15] with target 9 gives [0,1]
      from both solutions. */
  method TwoSumExample1()
  {
    var a := new int64[4];
    a[0], a[1], a[2], a[3] := 2, 7, 11, 15;
    var r := TwoSum(a, 9);
    assert Hits(a[..], 9, 0, 1);
    assert r == Pair(0, 1);
    r := TwoSumMap(a, 9);
    assert Hits(a[..], 9, 0, 1);
    assert r == Pair(0, 1);
  }

  /** The second documented example: [3,2,4] with target 6 gives [1,2], not
      the first element twice. */
  method TwoSumExample2()
  {
    var b := new int64[3];
    b[0], b[1], b[2] := 3, 2, 4;
    var r := TwoSum(b, 6);
    assert Hits(b[..], 6, 1, 2);
    assert !Hits(b[..], 6, 0, 1) && !Hits(b[..], 6, 0, 2);
    assert r == Pair(1, 2);
    r := TwoSumMap(b, 6);
    assert Hits(b[..], 6, 1, 2);
    assert !Hits(b[..], 6, 0, 1) && !Hits(b[..], 6, 0, 2);
    assert r == Pair(1, 2);
  }

  /** The third documented example: [3,3] with target 6 gives [0,1]. */
  method TwoSumExample3()
  {
    var c := new int64[2];
    c[0], c[1] := 3, 3;
    var r := TwoSum(c, 6);
    assert Hits(c[..], 6, 0, 1);
    assert r == Pair(0, 1);
    r := TwoSumMap(c, 6);
    assert Hits(c[..], 6, 0, 1);
    assert r == Pair(0, 1);
  }
}
