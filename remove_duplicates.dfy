/** Problem 26, "remove duplicates from a sorted array": two solutions over a
    slice of Go `int`s (task01/removeDuplicates/main.go). */
module Dedup {
  import opened GoBuiltins
  import opened Sorting

  /** The first element of `s` and every later element that differs from its
      predecessor: one representative of each run of equal neighbours. */
  function Compress(s: seq<int64>): (r: seq<int64>)
    ensures s == [] <==> r == []
    ensures |r| <= |s|
    ensures r != [] ==> r[0] == s[0] && r[|r| - 1] == s[|s| - 1]
  {
    if |s| <= 1 then s
    else if s[|s| - 1] != s[|s| - 2] then Compress(s[..|s| - 1]) + [s[|s| - 1]]
    else Compress(s[..|s| - 1])
  }

  predicate StrictlyIncreasing(s: seq<int64>)
  {
    forall i, j :: 0 <= i < j < |s| ==> s[i] < s[j]
  }

  /** The distinct values of `s`. */
  function Values(s: seq<int64>): set<int64>
  {
    set x | x in s
  }

  /** One more element extends Compress exactly when it differs from the
      last one. */
  lemma CompressSnoc(t: seq<int64>, x: int64)
    requires t != []
    ensures Compress(t + [x]) == if x != t[|t| - 1] then Compress(t) + [x] else Compress(t)
  {
    assert (t + [x])[..|t|] == t;
  }

  /** A prefix of a non-decreasing slice is non-decreasing. */
  lemma SortedInit(s: seq<int64>)
    requires SortedBy(s, AsInt) && s != []
    ensures SortedBy(s[..|s| - 1], AsInt) && (|s| > 1 ==> AsInt(s[|s| - 2]) <= AsInt(s[|s| - 1]))
  {
  }

  /** Compress keeps every value and invents none. */
  lemma {:induction false} CompressValues(s: seq<int64>)
    ensures Values(Compress(s)) == Values(s)
  {
    if |s| > 1 {
      var t, x := s[..|s| - 1], s[|s| - 1];
      assert s == t + [x];
      CompressValues(t);
      CompressSnoc(t, x);
      ValuesSnoc(t, x);
      if x != t[|t| - 1] {
        ValuesSnoc(Compress(t), x);
      } else {
        assert x in Values(t) by { assert t[|t| - 1] in t; }
      }
    }
  }

  /** On a non-decreasing slice, Compress keeps each distinct value exactly
      once, in increasing (and so original) order. */
  lemma {:induction false} CompressSorted(s: seq<int64>)
    requires SortedBy(s, AsInt)
    ensures StrictlyIncreasing(Compress(s))
    ensures Values(Compress(s)) == Values(s)
  {
    CompressValues(s);
    if |s| > 1 {
      var t, x := s[..|s| - 1], s[|s| - 1];
      assert s == t + [x];
      SortedInit(s);
      CompressSorted(t);
      CompressSnoc(t, x);
      if x != t[|t| - 1] {
        SnocIncreasing(Compress(t), x);
      }
    }
  }

  lemma ValuesSnoc(s: seq<int64>, x: int64)
    ensures Values(s + [x]) == Values(s) + {x}
  {
    assert forall y :: y in s + [x] <==> y in s || y == x;
  }

  lemma SnocIncreasing(s: seq<int64>, x: int64)
    requires StrictlyIncreasing(s) && s != [] && s[|s| - 1] < x
    ensures StrictlyIncreasing(s + [x])
  {
  }

  /** A strictly increasing sequence has as many elements as distinct values. */
  lemma {:induction false} StrictlyIncreasingCount(s: seq<int64>)
    requires StrictlyIncreasing(s)
    ensures |Values(s)| == |s|
  {
    if s != [] {
      var t := s[..|s| - 1];
      StrictlyIncreasingCount(t);
      assert s == t + [s[|s| - 1]];
      assert Values(s) == Values(t) + {s[|s| - 1]};
      assert s[|s| - 1] !in Values(t);
    }
  }

  /** For a non-decreasing slice, the length Compress returns is the number
      of distinct values. */
  lemma CompressCountsDistinct(s: seq<int64>)
    requires SortedBy(s, AsInt)
    ensures |Compress(s)| == |Values(s)|
  {
    CompressSorted(s);
    StrictlyIncreasingCount(Compress(s));
  }

  /** `removeDuplicates`: appends `nums[0]` and every element that differs
      from its predecessor to a fresh `result` slice and returns its length.
      Indexing `nums[0]` panics on an empty slice, hence the precondition;
      `nums` is only read (no `modifies`). */
  method RemoveDuplicates(nums: array<int64>) returns (k: nat)
    requires nums.Length > 0
    ensures k == |Compress(nums[..])|
    ensures 1 <= k <= nums.Length
    ensures SortedBy(nums[..], AsInt) ==> k == |Values(nums[..])|
  {
    var result: seq<int64> := [nums[0]];
    for i := 1 to nums.Length
      invariant result == Compress(nums[..i])
    {
      assert nums[..i + 1][..i] == nums[..i];
      if nums[i] != nums[i - 1] {
        result := result + [nums[i]];
      }
    }
    assert nums[..nums.Length] == nums[..];
    k := |result|;
    if SortedBy(nums[..], AsInt) {
      CompressCountsDistinct(nums[..]);
    }
  }

  /** The fast/slow pointer loop's state: the first `slow` positions hold
      Compress of the first `fast` original elements, and the positions from
      `slow` on still hold their original values. */
  ghost predicate Compacted(a: seq<int64>, orig: seq<int64>, slow: int, fast: int)
  {
    && 1 <= slow <= fast <= |a| == |orig|
    && a[..slow] == Compress(orig[..fast])
    && forall j :: slow <= j < |a| ==> a[j] == orig[j]
  }

  /** The two positions an iteration compares still hold original values. */
  lemma CompactedReads(a: seq<int64>, orig: seq<int64>, slow: int, fast: int)
    requires Compacted(a, orig, slow, fast) && fast < |a|
    ensures a[fast] == orig[fast] && a[fast - 1] == orig[fast - 1]
  {
    if slow == fast {
      assert a[..slow][slow - 1] == a[fast - 1];
      assert orig[..fast][fast - 1] == orig[fast - 1];
    }
  }

  /** A repeated element is skipped. */
  lemma CompactedSkip(a: seq<int64>, orig: seq<int64>, slow: int, fast: int)
    requires Compacted(a, orig, slow, fast) && fast < |a| && orig[fast] == orig[fast - 1]
    ensures Compacted(a, orig, slow, fast + 1)
  {
    assert orig[..fast + 1] == orig[..fast] + [orig[fast]];
    CompressSnoc(orig[..fast], orig[fast]);
  }

  /** A new element is copied to position `slow`. */
  lemma CompactedCopy(a: seq<int64>, orig: seq<int64>, slow: int, fast: int)
    requires Compacted(a, orig, slow, fast) && fast < |a| && orig[fast] != orig[fast - 1]
    ensures Compacted(a[slow := orig[fast]], orig, slow + 1, fast + 1)
  {
    assert orig[..fast + 1] == orig[..fast] + [orig[fast]];
    CompressSnoc(orig[..fast], orig[fast]);
    assert a[slow := orig[fast]][..slow + 1] == a[..slow] + [orig[fast]];
  }

  /** `removeDuplicatesSZZ`: the fast/slow pointer version. `slow` marks the
      end of the kept prefix; each element that differs from its predecessor
      is copied to `nums[slow]`. Writes happen only at `slow <= fast`, so the
      comparison with `nums[fast - 1]` still sees the original value and the
      positions from `k` on keep their old values. On an empty slice the loop
      never runs and the answer is 1. */
  method RemoveDuplicatesInPlace(nums: array<int64>) returns (k: nat)
    modifies nums
    ensures nums.Length == 0 ==> k == 1
    ensures nums.Length > 0 ==>
      && k == |Compress(old(nums[..]))|
      && nums[..k] == Compress(old(nums[..]))
      && nums[k..] == old(nums[k..])
  {
    if nums.Length == 1 {
      return 1;
    }
    var slow := 1;
    var fast := 1;
    ghost var orig := nums[..];
    assert nums.Length > 0 ==> nums[..1] == orig[..1];
    while fast < nums.Length
      invariant 1 <= slow <= fast
      invariant nums.Length == 0 ==> slow == 1
      invariant nums.Length > 0 ==> Compacted(nums[..], orig, slow, fast)
    {
      ghost var a := nums[..];
      CompactedReads(a, orig, slow, fast);
      if nums[fast] != nums[fast - 1] {
        CompactedCopy(a, orig, slow, fast);
        nums[slow] := nums[fast];
        assert nums[..] == a[slow := orig[fast]];
        slow := slow + 1;
      } else {
        CompactedSkip(a, orig, slow, fast);
      }
      fast := fast + 1;
    }
    if nums.Length > 0 {
      assert orig[..nums.Length] == orig;
      assert nums[slow..] == orig[slow..];
    }
    k := slow;
  }

  /** On every non-empty slice the two solutions return the same count. */
  method CountsAgree(nums: array<int64>) returns (n: nat, k: nat)
    requires nums.Length > 0
    modifies nums
    ensures n == k
  {
    n := RemoveDuplicates(nums);
    k := RemoveDuplicatesInPlace(nums);
  }

  /** The empty-slice quirk: `slow` starts at 1 and is returned unchanged. */
  method EmptySliceExample()
  {
    var a := new int64[0];
    var k := RemoveDuplicatesInPlace(a);
    assert k == 1;
  }

  /** The first documented example: [1,1,2] compresses to [1,2]. */
  lemma CompressShortExample()
    ensures Compress([1, 1, 2]) == [1, 2]
  {
    var s: seq<int64> := [1, 1, 2];
    assert Compress(s[..1]) == [1];
    assert s[..2][..1] == s[..1];
    assert Compress(s[..2]) == [1];
    assert s[..3][..2] == s[..2];
    assert s[..3] == s;
  }

  /** The first documented example run through both solutions: [1,1,2]
      gives 2, and the in-place one leaves [1,2] at the front. */
  method RemoveDuplicatesShortExample()
  {
    var a := new int64[3];
    a[0], a[1], a[2] := 1, 1, 2;
    assert a[..] == [1, 1, 2];
    CompressShortExample();
    var n := RemoveDuplicates(a);
    assert n == 2;
    var k := RemoveDuplicatesInPlace(a);
    assert k == 2 && a[..2] == [1, 2];
  }

  lemma CompressExample()
    ensures Compress([0, 0, 1, 1, 1, 2, 2, 3, 3, 4]) == [0, 1, 2, 3, 4]
  {
    var s: seq<int64> := [0, 0, 1, 1, 1, 2, 2, 3, 3, 4];
    assert Compress(s[..1]) == [0];
    assert s[..2][..1] == s[..1];
    assert Compress(s[..2]) == [0];
    assert s[..3][..2] == s[..2];
    assert Compress(s[..3]) == [0, 1];
    assert s[..4][..3] == s[..3];
    assert Compress(s[..4]) == [0, 1];
    assert s[..5][..4] == s[..4];
    assert Compress(s[..5]) == [0, 1];
    assert s[..6][..5] == s[..5];
    assert Compress(s[..6]) == [0, 1, 2];
    assert s[..7][..6] == s[..6];
    assert Compress(s[..7]) == [0, 1, 2];
    assert s[..8][..7] == s[..7];
    assert Compress(s[..8]) == [0, 1, 2, 3];
    assert s[..9][..8] == s[..8];
    assert Compress(s[..9]) == [0, 1, 2, 3];
    assert s[..10][..9] == s[..9];
    assert Compress(s[..10]) == [0, 1, 2, 3, 4];
    assert s[..10] == s;
  }

  /** The documented example: [0,0,1,1,1,2,2,3,3,4] gives 5 and the prefix
      [0,1,2,3,4]. */
  method RemoveDuplicatesExample()
  {
    var a := new int64[10];
    a[0], a[1], a[2], a[3], a[4] := 0, 0, 1, 1, 1;
    a[5], a[6], a[7], a[8], a[9] := 2, 2, 3, 3, 4;
    assert a[..] == [0, 0, 1, 1, 1, 2, 2, 3, 3, 4];
    CompressExample();
    var n := RemoveDuplicates(a);
    assert n == 5;
    var k := RemoveDuplicatesInPlace(a);
    assert k == 5 && a[..5] == [0, 1, 2, 3, 4];
  }
}
