/** Problem 136, "single number": in a non-empty slice where every element
    appears twice except one, find that one. Three solutions
    (task01/singleNumber/main.go). */
module SingleNumber {
  import opened GoBuiltins
  import opened Sorting

  /** The problem's promise about the input: `x` appears once and every other
      value that appears, appears exactly twice. */
  ghost predicate SingleOut(s: seq<int64>, x: int64)
  {
    && multiset(s)[x] == 1
    && forall v :: v in multiset(s) && v != x ==> multiset(s)[v] == 2
  }

  /** Position `i` differs from both neighbours it has. */
  predicate Lonely(s: seq<int64>, i: int)
    requires 0 <= i < |s|
  {
    (i == 0 || s[i - 1] != s[i]) && (i == |s| - 1 || s[i] != s[i + 1])
  }

  // ---------------------------------------------------------------------
  // Sort, then scan for an element unlike its neighbours
  // ---------------------------------------------------------------------

  /** The count of the value at `i`: its occurrences before, itself, and
      its occurrences after. */
  lemma CountAround(s: seq<int64>, i: int)
    requires 0 <= i < |s|
    ensures multiset(s)[s[i]] == multiset(s[..i])[s[i]] + 1 + multiset(s[i + 1..])[s[i]]
  {
    assert s == s[..i] + [s[i]] + s[i + 1..];
  }

  /** In a sorted slice, a value unlike its neighbours occurs nowhere else. */
  lemma LonelyAlone(s: seq<int64>, i: int)
    requires SortedBy(s, AsInt) && 0 <= i < |s| && Lonely(s, i)
    ensures s[i] !in s[..i] && s[i] !in s[i + 1..]
  {
    forall j | 0 <= j < i
      ensures s[j] != s[i]
    {
      assert AsInt(s[j]) <= AsInt(s[i - 1]) < AsInt(s[i]);
    }
    forall j | i < j < |s|
      ensures s[j] != s[i]
    {
      assert AsInt(s[i]) < AsInt(s[i + 1]) <= AsInt(s[j]);
    }
  }

  /** In a sorted slice an element differs from its neighbours exactly when
      it occurs once. */
  lemma LonelyIffOnce(s: seq<int64>, i: int)
    requires SortedBy(s, AsInt) && 0 <= i < |s|
    ensures Lonely(s, i) <==> multiset(s)[s[i]] == 1
  {
    CountAround(s, i);
    if Lonely(s, i) {
      LonelyAlone(s, i);
    } else if i > 0 && s[i - 1] == s[i] {
      assert s[..i][i - 1] == s[i];
    } else {
      assert s[i + 1..][0] == s[i];
    }
  }

  /** `r` is the least value occurring exactly once in `m`, or -1 when no
      value does. */
  ghost predicate LeastSingle(m: multiset<int64>, r: int64)
  {
    && ((exists v :: m[v] == 1) ==> m[r] == 1 && forall v :: m[v] == 1 ==> r <= v)
    && ((forall v :: m[v] != 1) ==> r == -1)
  }

  /** Under the problem's promise, a value occurring once is the single one. */
  lemma OnceIsSingle(s: seq<int64>, x: int64, r: int64)
    requires SingleOut(s, x) && multiset(s)[r] == 1
    ensures r == x
  {
  }

  /** Under the problem's promise, the least single value is the single one. */
  lemma LeastIsSingle(s: seq<int64>, r: int64)
    requires LeastSingle(multiset(s), r)
    ensures forall x :: SingleOut(s, x) ==> r == x
  {
    forall x | SingleOut(s, x)
      ensures r == x
    {
      assert multiset(s)[x] == 1;
      OnceIsSingle(s, x, r);
    }
  }

  /** The first lonely position of a sorted slice holds the least value that
      occurs exactly once. */
  lemma FirstLonelyIsLeastSingle(s: seq<int64>, i: int)
    requires SortedBy(s, AsInt) && 0 <= i < |s| && Lonely(s, i)
    requires forall j :: 0 <= j < i ==> !Lonely(s, j)
    ensures LeastSingle(multiset(s), s[i])
  {
    LonelyIffOnce(s, i);
    forall v | multiset(s)[v] == 1
      ensures s[i] <= v
    {
      var m :| 0 <= m < |s| && s[m] == v;
      LonelyIffOnce(s, m);
      assert i <= m;
    }
  }

  /** A sorted slice without a lonely position has no value occurring once. */
  lemma NoLonelyNoSingle(s: seq<int64>)
    requires SortedBy(s, AsInt)
    requires forall j :: 0 <= j < |s| ==> !Lonely(s, j)
    ensures LeastSingle(multiset(s), -1)
  {
    forall v | multiset(s)[v] == 1
      ensures false
    {
      var m :| 0 <= m < |s| && s[m] == v;
      LonelyIffOnce(s, m);
    }
  }

  /** `singleNumber`: sorts `nums` in place, then returns the first element
      that differs from its neighbours (checking the two ends separately),
      or -1. It indexes `nums[1]`, so slices shorter than two panic. The
      answer is the least value that occurs exactly once in the input, so
      under the problem's promise it is the single one (LeastIsSingle). */
  method SingleNumberSort(nums: array<int64>) returns (r: int64)
    requires nums.Length >= 2
    modifies nums
    ensures SortedBy(nums[..], AsInt)
    ensures multiset(nums[..]) == multiset(old(nums[..]))
    ensures LeastSingle(multiset(old(nums[..])), r)
  {
    SortInPlace(nums, AsInt);
    ghost var s := nums[..];
    var n := nums.Length;
    if nums[0] != nums[1] {
      FirstLonelyIsLeastSingle(s, 0);
      return nums[0];
    }
    assert !Lonely(s, 0);
    for i := 1 to n - 1
      invariant forall j :: 0 <= j < i ==> !Lonely(s, j)
    {
      if nums[i] != nums[i - 1] && nums[i] != nums[i + 1] {
        FirstLonelyIsLeastSingle(s, i);
        return nums[i];
      }
    }
    if nums[n - 1] != nums[n - 2] {
      FirstLonelyIsLeastSingle(s, n - 1);
      return nums[n - 1];
    }
    assert !Lonely(s, n - 1);
    NoLonelyNoSingle(s);
    return -1;
  }

  // ---------------------------------------------------------------------
  // Count occurrences in a map, then pick a key with count 1
  // ---------------------------------------------------------------------

  /** `singleNUmberMap`: counts every element in a map (a missing key reads
      as 0), then ranges over the map and returns the first key with count 1,
      or -1. Go ranges over a map in an unspecified order, so the key is
      chosen arbitrarily among those not yet visited. `nums` is only read. */
  method SingleNumberMap(nums: array<int64>) returns (r: int64)
    ensures (exists v :: multiset(nums[..])[v] == 1) ==> multiset(nums[..])[r] == 1
    ensures (forall v :: multiset(nums[..])[v] != 1) ==> r == -1
    ensures forall x :: SingleOut(nums[..], x) ==> r == x
  {
    var counts: map<int64, int> := map[];
    for i := 0 to nums.Length
      invariant forall v :: v in counts <==> v in nums[..i]
      invariant forall v :: v in counts ==> counts[v] == multiset(nums[..i])[v]
    {
      assert nums[..i + 1] == nums[..i] + [nums[i]];
      counts := counts[nums[i] := (if nums[i] in counts then counts[nums[i]] else 0) + 1];
    }
    assert nums[..nums.Length] == nums[..];
    var unvisited := counts.Keys;
    while unvisited != {}
      invariant unvisited <= counts.Keys
      invariant forall v :: v in counts && v !in unvisited ==> counts[v] != 1
      decreases unvisited
    {
      var k :| k in unvisited;
      if counts[k] == 1 {
        return k;
      }
      unvisited := unvisited - {k};
    }
    return -1;
  }

  // ---------------------------------------------------------------------
  // Exclusive or of all elements
  // ---------------------------------------------------------------------

  /** The bit pattern of `s[0] ^ s[1] ^ ... ^ s[|s|-1]`, folded from the left. */
  function XorAll(s: seq<int64>): nat
  {
    if s == [] then 0 else Xor(XorAll(s[..|s| - 1]), Bits(s[|s| - 1]))
  }

  lemma RemoveAt(s: seq<int64>, k: int)
    requires 0 <= k < |s|
    ensures multiset(s[..k] + s[k + 1..]) == multiset(s) - multiset{s[k]}
  {
    assert s == s[..k] + [s[k]] + s[k + 1..];
  }

  /** Any one element can be taken out of the fold and applied last. */
  lemma {:induction false} XorAllRemove(s: seq<int64>, k: int)
    requires 0 <= k < |s|
    ensures XorAll(s) == Xor(XorAll(s[..k] + s[k + 1..]), Bits(s[k]))
    decreases |s|
  {
    var t, last := s[..|s| - 1], s[|s| - 1];
    if k == |s| - 1 {
      assert s[..k] + s[k + 1..] == t;
    } else {
      var t' := t[..k] + t[k + 1..];
      XorAllRemove(t, k);
      var s' := s[..k] + s[k + 1..];
      assert s' == t' + [last];
      assert s'[..|s'| - 1] == t';
      var a, b, l := XorAll(t'), Bits(s[k]), Bits(last);
      calc {
        XorAll(s);
        Xor(Xor(a, b), l);
        { XorAssoc(a, b, l); }
        Xor(a, Xor(b, l));
        { XorComm(b, l); }
        Xor(a, Xor(l, b));
        { XorAssoc(a, l, b); }
        Xor(Xor(a, l), b);
        Xor(XorAll(s'), b);
      }
    }
  }

  /** When every value occurs an even number of times, the last element
      occurs again earlier. */
  lemma PairedLast(s: seq<int64>) returns (k: int)
    requires s != [] && forall v :: multiset(s)[v] % 2 == 0
    ensures 0 <= k < |s| - 1 && s[k] == s[|s| - 1]
  {
    var t, v := s[..|s| - 1], s[|s| - 1];
    assert s == t + [v];
    assert multiset(s)[v] == multiset(t)[v] + 1;
    assert multiset(s)[v] % 2 == 0;
    assert v in multiset(t);
    k :| 0 <= k < |t| && t[k] == v;
  }

  /** Taking out a pair of equal values keeps every count even. */
  lemma DropPair(s: seq<int64>, k: int, u: seq<int64>)
    requires 0 <= k < |s| - 1 && s[k] == s[|s| - 1]
    requires u == s[..|s| - 1][..k] + s[..|s| - 1][k + 1..]
    requires forall v :: multiset(s)[v] % 2 == 0
    ensures forall v :: multiset(u)[v] % 2 == 0
  {
    var t, x := s[..|s| - 1], s[|s| - 1];
    RemoveAt(t, k);
    assert s == t + [x];
    assert multiset(s) == multiset(t) + multiset{x};
    forall v
      ensures multiset(u)[v] % 2 == 0
    {
      if v == x {
        assert multiset(s)[v] == multiset(u)[v] + 2;
      } else {
        assert multiset(s)[v] == multiset(u)[v];
      }
    }
  }

  /** Values that occur an even number of times cancel out. */
  lemma {:induction false} XorAllEven(s: seq<int64>)
    requires forall v :: multiset(s)[v] % 2 == 0
    ensures XorAll(s) == 0
    decreases |s|
  {
    if s != [] {
      var t, v := s[..|s| - 1], s[|s| - 1];
      var k := PairedLast(s);
      var u := t[..k] + t[k + 1..];
      DropPair(s, k, u);
      XorAllEven(u);
      XorAllRemove(t, k);
      XorAssoc(XorAll(u), Bits(v), Bits(v));
      XorSelf(Bits(v));
      XorZero(XorAll(u));
    }
  }

  /** Under the problem's promise, the fold is the bit pattern of the single one. */
  lemma XorAllSingle(s: seq<int64>, x: int64)
    requires SingleOut(s, x)
    ensures XorAll(s) == Bits(x)
  {
    var k :| 0 <= k < |s| && s[k] == x;
    RemoveAt(s, k);
    var u := s[..k] + s[k + 1..];
    assert forall w :: multiset(u)[w] % 2 == 0 by {
      forall w
        ensures multiset(u)[w] % 2 == 0
      {
        if w != x && w in multiset(s) {
          assert multiset(s)[w] == 2;
        }
      }
    }
    XorAllEven(u);
    XorAllRemove(s, k);
    XorZero(Bits(x));
  }

  /** `singleNumberYh`: `result ^= num` over the slice, starting from 0.
      Under the problem's promise the pairs cancel and the single one is left. */
  method SingleNumberXor(nums: array<int64>) returns (r: int64)
    ensures Bits(r) == XorAll(nums[..])
    ensures forall x :: SingleOut(nums[..], x) ==> r == x
  {
    var result: int64 := 0;
    for i := 0 to nums.Length
      invariant Bits(result) == XorAll(nums[..i])
    {
      assert nums[..i + 1][..i] == nums[..i];
      result := XorInt(result, nums[i]);
    }
    assert nums[..nums.Length] == nums[..];
    r := result;
    forall x | SingleOut(nums[..], x)
      ensures r == x
    {
      XorAllSingle(nums[..], x);
      assert Wrap(Bits(r)) == r && Wrap(Bits(x)) == x;
    }
  }

  lemma ExampleInput()
    ensures SingleOut([4, 1, 2, 1, 2], 4)
  {
    var s: seq<int64> := [4, 1, 2, 1, 2];
    assert multiset(s) == multiset{4} + multiset{1, 1} + multiset{2, 2};
    forall v | v in multiset(s) && v != 4
      ensures multiset(s)[v] == 2
    {
      assert v in s;
    }
  }

  /** The example in the source: [4,1,2,1,2] has single number 4, and all
      three solutions find it. */
  method SingleNumberExample()
  {
    var a := new int64[5];
    a[0], a[1], a[2], a[3], a[4] := 4, 1, 2, 1, 2;
    assert a[..] == [4, 1, 2, 1, 2];
    ExampleInput();
    var x := SingleNumberXor(a);
    assert x == 4;
    var y := SingleNumberMap(a);
    assert y == 4;
    ghost var before := a[..];
    var z := SingleNumberSort(a);
    LeastIsSingle(before, z);
    assert z == 4;
  }

  /** The input of the program's `main`, [4,5,2,4,5,2,1,2,1,3]: the same
      three values twice, then four more. */
  const MainHalf: seq<int64> := [4, 5, 2]
  const MainTail: seq<int64> := [1, 2, 1, 3]
  const MainInput: seq<int64> := MainHalf + MainHalf + MainTail

  /** That input breaks the problem's promise (2 occurs three times), yet 3
      is the only value that occurs once. */
  lemma MainInputOnce()
    ensures multiset(MainInput)[3] == 1 && multiset(MainInput)[2] == 3
    ensures forall v :: multiset(MainInput)[v] == 1 ==> v == 3
  {
    var h, t := multiset(MainHalf), multiset(MainTail);
    assert multiset(MainInput) == h + h + t;
    assert t == multiset{1, 1, 2, 3};
    forall v | multiset(MainInput)[v] == 1
      ensures v == 3
    {
      assert h[v] == 0;
    }
  }

  /** The fold over one more element. */
  lemma XorAllNext(s: seq<int64>, i: int)
    requires 0 <= i < |s|
    ensures XorAll(s[..i + 1]) == Xor(XorAll(s[..i]), Bits(s[i]))
  {
    assert s[..i + 1][..i] == s[..i];
  }

  /** The exclusive ors the fold over the program's input goes through. */
  lemma MainInputXorSteps()
    ensures Xor(4, 5) == 1 && Xor(1, 2) == 3 && Xor(3, 4) == 7 && Xor(7, 5) == 2
    ensures Xor(2, 2) == 0 && Xor(0, 1) == 1 && Xor(3, 1) == 2 && Xor(2, 3) == 1
  {
    XorSelf(2);
    XorZero(1);
  }

  /** On that input the exclusive-or solution returns 1, not 3: the three
      2s leave a 2 behind, and 2 ^ 3 is 1. */
  lemma MainInputXor()
    ensures XorAll(MainInput) == 1
  {
    var s: seq<int64> := [4, 5, 2, 4, 5, 2, 1, 2, 1, 3];
    assert s == MainInput;
    MainInputXorSteps();
    assert XorAll(s[..1]) == 4 by {
      XorAllNext(s, 0);
      XorZero(4);
    }
    XorAllNext(s, 1);
    XorAllNext(s, 2);
    XorAllNext(s, 3);
    XorAllNext(s, 4);
    XorAllNext(s, 5);
    XorAllNext(s, 6);
    XorAllNext(s, 7);
    XorAllNext(s, 8);
    XorAllNext(s, 9);
    assert s[..10] == s;
  }

  /** The input the program's `main` passes, [4,5,2,4,5,2,1,2,1,3]: the map
      solution (the one `main` prints) and the sort solution return 3, the
      only value occurring once; the exclusive-or solution returns 1, since
      the input breaks the problem's promise. */
  method SingleNumberMainExample()
  {
    var a := new int64[10](k requires 0 <= k < 10 => MainInput[k]);
    assert a[..] == MainInput;
    MainInputOnce();
    var y := SingleNumberMap(a);
    assert y == 3;
    MainInputXor();
    var x := SingleNumberXor(a);
    assert Bits(x) == 1 && Wrap(1) == 1;
    assert x == 1;
    var z := SingleNumberSort(a);
    assert z == 3;
  }
}
