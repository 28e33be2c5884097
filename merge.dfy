/** Problem 56, "merge intervals" (task01/merge/main.go): sort the intervals
    by start, then sweep, extending the last merged interval while the next
    one starts no later than it ends. */
module Intervals {
  import opened GoBuiltins
  import opened Sorting

  /** One `[]int{start, end}` of the input. */
  datatype Interval = Interval(lo: int64, hi: int64)

  /** The key the `sort.Slice` comparison orders by. */
  function Start(iv: Interval): int { iv.lo as int }

  /** Every interval has start <= end. */
  predicate WellFormed(s: seq<Interval>)
  {
    forall k :: 0 <= k < |s| ==> s[k].lo <= s[k].hi
  }

  /** Each interval ends strictly before the next one starts. */
  predicate Separated(s: seq<Interval>)
  {
    forall k :: 0 < k < |s| ==> s[k - 1].hi < s[k].lo
  }

  /** Some interval of `s` contains the point `p`. Points are real, so the
      gap between [1,2] and [3,4] is a point that neither covers. */
  ghost predicate Covers(s: seq<Interval>, p: real)
  {
    exists k :: 0 <= k < |s| && s[k].lo as real <= p <= s[k].hi as real
  }

  function Starts(s: seq<Interval>): set<int64>
  {
    set iv | iv in s :: iv.lo
  }

  function Ends(s: seq<Interval>): set<int64>
  {
    set iv | iv in s :: iv.hi
  }

  /** One step of the sweep: the next interval `c` extends the last merged
      interval when it starts no later than that one ends (so touching
      intervals merge too), and is appended after it otherwise. */
  function Absorb(r: seq<Interval>, c: Interval): (r': seq<Interval>)
    requires r != []
    ensures |r'| == |r| || |r'| == |r| + 1
  {
    var last := r[|r| - 1];
    if c.lo <= last.hi then r[..|r| - 1] + [Interval(last.lo, if c.hi > last.hi then c.hi else last.hi)]
    else r + [c]
  }

  /** The sweep over a slice sorted by start, absorbing one interval at a time. */
  function Sweep(s: seq<Interval>): (r: seq<Interval>)
    ensures |s| > 0 ==> 1 <= |r| <= |s|
    ensures s == [] ==> r == []
  {
    if |s| <= 1 then s
    else Absorb(Sweep(s[..|s| - 1]), s[|s| - 1])
  }

  /** An interval that starts and ends within the last merged one is absorbed
      without change. */
  lemma AbsorbInside(r: seq<Interval>, c: Interval)
    requires r != [] && c.lo <= r[|r| - 1].hi && c.hi <= r[|r| - 1].hi
    ensures Absorb(r, c) == r
  {
    assert r == r[..|r| - 1] + [r[|r| - 1]];
  }

  lemma SweepNext(s: seq<Interval>, i: int)
    requires 1 <= i < |s|
    ensures Sweep(s[..i + 1]) == Absorb(Sweep(s[..i]), s[i])
  {
    assert s[..i + 1][..i] == s[..i];
  }

  /** Every merged start is an input start, every merged end an input end. */
  lemma {:induction false} SweepEndpoints(s: seq<Interval>)
    ensures forall k :: 0 <= k < |Sweep(s)| ==> Sweep(s)[k].lo in Starts(s) && Sweep(s)[k].hi in Ends(s)
  {
    if |s| > 1 {
      var t, c := s[..|s| - 1], s[|s| - 1];
      SweepEndpoints(t);
      assert s == t + [c];
      assert Starts(t) <= Starts(s) && Ends(t) <= Ends(s);
      assert c in s;
    }
  }

  /** Appending an interval adds exactly its own points. */
  lemma CoversSnoc(s: seq<Interval>, x: Interval, p: real)
    ensures Covers(s + [x], p) <==> Covers(s, p) || x.lo as real <= p <= x.hi as real
  {
    var t := s + [x];
    if Covers(t, p) {
      var k :| 0 <= k < |t| && t[k].lo as real <= p <= t[k].hi as real;
      if k < |s| {
        assert s[k] == t[k];
      }
    }
    if Covers(s, p) {
      var k :| 0 <= k < |s| && s[k].lo as real <= p <= s[k].hi as real;
      assert t[k] == s[k];
    }
    if x.lo as real <= p <= x.hi as real {
      assert t[|s|] == x;
    }
  }

  /** On a slice sorted by start, no merged interval starts after the last
      input interval does. */
  lemma {:induction false} SweepStartsBelow(s: seq<Interval>)
    requires SortedBy(s, Start) && s != []
    ensures forall k :: 0 <= k < |Sweep(s)| ==> Sweep(s)[k].lo <= s[|s| - 1].lo
  {
    if |s| > 1 {
      var t, c := s[..|s| - 1], s[|s| - 1];
      assert SortedBy(t, Start);
      SweepStartsBelow(t);
      assert Start(s[|s| - 2]) <= Start(c);
      var r := Sweep(t);
      assert forall k :: 0 <= k < |r| ==> r[k].lo <= c.lo;
      assert forall k :: 0 <= k < |Absorb(r, c)| ==> Absorb(r, c)[k].lo <= c.lo;
    }
  }

  /** Absorbing an interval that starts no earlier than the last merged one
      adds exactly its points. */
  lemma AbsorbCovers(r: seq<Interval>, c: Interval, p: real)
    requires r != [] && r[|r| - 1].lo <= c.lo
    ensures Covers(Absorb(r, c), p) <==> Covers(r, p) || c.lo as real <= p <= c.hi as real
  {
    var last, without := r[|r| - 1], r[..|r| - 1];
    assert r == without + [last];
    CoversSnoc(without, last, p);
    if c.lo <= last.hi {
      CoversSnoc(without, Interval(last.lo, if c.hi > last.hi then c.hi else last.hi), p);
    } else {
      CoversSnoc(r, c, p);
    }
  }

  /** On a slice sorted by start, merging neither loses nor adds a point. */
  lemma {:induction false} SweepCovers(s: seq<Interval>, p: real)
    requires SortedBy(s, Start)
    ensures Covers(Sweep(s), p) <==> Covers(s, p)
  {
    if |s| > 1 {
      var t, c := s[..|s| - 1], s[|s| - 1];
      assert SortedBy(t, Start);
      SweepCovers(t, p);
      assert s == t + [c];
      CoversSnoc(t, c, p);
      SweepStartsBelow(t);
      assert Start(t[|t| - 1]) <= Start(c);
      AbsorbCovers(Sweep(t), c, p);
    }
  }

  lemma SeparatedSnoc(r: seq<Interval>, x: Interval)
    requires WellFormed(r) && Separated(r) && x.lo <= x.hi
    requires r != [] ==> r[|r| - 1].hi < x.lo
    ensures WellFormed(r + [x]) && Separated(r + [x])
  {
  }

  lemma SeparatedInit(r: seq<Interval>)
    requires WellFormed(r) && Separated(r) && r != []
    ensures WellFormed(r[..|r| - 1]) && Separated(r[..|r| - 1])
    ensures |r| > 1 ==> r[|r| - 2].hi < r[|r| - 1].lo <= r[|r| - 1].hi
  {
  }

  /** On well-formed intervals the merged intervals are well formed and
      separated by gaps, so their starts strictly increase. (This needs no
      sorting: each step either widens the last interval or appends one
      that starts after it ends.) */
  lemma {:induction false} SweepSeparated(s: seq<Interval>)
    requires WellFormed(s)
    ensures WellFormed(Sweep(s)) && Separated(Sweep(s))
  {
    if |s| > 1 {
      var t, c := s[..|s| - 1], s[|s| - 1];
      assert WellFormed(t);
      SweepSeparated(t);
      var r := Sweep(t);
      var last, without := r[|r| - 1], r[..|r| - 1];
      assert Sweep(s) == Absorb(r, c);
      if c.lo <= last.hi {
        SeparatedInit(r);
        SeparatedSnoc(without, Interval(last.lo, if c.hi > last.hi then c.hi else last.hi));
      } else {
        SeparatedSnoc(r, c);
      }
    }
  }

  /** A permutation covers the same points and has the same endpoints. */
  lemma PermutationSame(a: seq<Interval>, b: seq<Interval>)
    requires multiset(a) == multiset(b)
    ensures forall p :: Covers(a, p) <==> Covers(b, p)
    ensures Starts(a) == Starts(b) && Ends(a) == Ends(b)
    ensures WellFormed(a) <==> WellFormed(b)
  {
    assert forall iv :: iv in a <==> iv in b by {
      forall iv
        ensures iv in a <==> iv in b
      {
        assert iv in a <==> iv in multiset(a);
        assert iv in b <==> iv in multiset(b);
      }
    }
    forall p | Covers(a, p)
      ensures Covers(b, p)
    {
      var k :| 0 <= k < |a| && a[k].lo as real <= p <= a[k].hi as real;
      assert a[k] in b;
      var m :| 0 <= m < |b| && b[m] == a[k];
    }
    forall p | Covers(b, p)
      ensures Covers(a, p)
    {
      var k :| 0 <= k < |b| && b[k].lo as real <= p <= b[k].hi as real;
      assert b[k] in a;
      var m :| 0 <= m < |a| && a[m] == b[k];
    }
    if WellFormed(a) {
      forall k | 0 <= k < |b|
        ensures b[k].lo <= b[k].hi
      {
        assert b[k] in a;
        var m :| 0 <= m < |a| && a[m] == b[k];
      }
    }
    if WellFormed(b) {
      forall k | 0 <= k < |a|
        ensures a[k].lo <= a[k].hi
      {
        assert a[k] in b;
        var m :| 0 <= m < |b| && b[m] == a[k];
      }
    }
  }

  /** What merging a sorted permutation of `input` promises about `input`:
      the merged intervals cover exactly its points, take their endpoints from
      it, and on well-formed input are well formed and separated. */
  lemma SweepOfPermutation(input: seq<Interval>, sorted: seq<Interval>)
    requires multiset(sorted) == multiset(input) && SortedBy(sorted, Start)
    ensures forall p :: Covers(Sweep(sorted), p) <==> Covers(input, p)
    ensures Starts(Sweep(sorted)) <= Starts(input) && Ends(Sweep(sorted)) <= Ends(input)
    ensures WellFormed(input) ==> WellFormed(Sweep(sorted)) && Separated(Sweep(sorted))
  {
    PermutationSame(sorted, input);
    forall p
      ensures Covers(Sweep(sorted), p) <==> Covers(input, p)
    {
      SweepCovers(sorted, p);
    }
    SweepEndpoints(sorted);
    if WellFormed(input) {
      SweepSeparated(sorted);
    }
  }

  /** The sharing between the merged prefix and the slice being swept, after
      `i` entries: result entry `k` is the inner slice stored at `a[heads[k]]`
      (heads increase and lie before `i`), every entry keeps its sorted start,
      and entries that no result entry shares are untouched. */
  ghost predicate Shared(a: seq<Interval>, sorted: seq<Interval>, result: seq<Interval>, heads: seq<nat>, i: int)
  {
    && |a| == |sorted| && i <= |a|
    && |result| == |heads|
    && (forall k :: 0 <= k < |heads| ==> heads[k] < i && a[heads[k]] == result[k])
    && (forall x, y :: 0 <= x < y < |heads| ==> heads[x] < heads[y])
    && forall k :: 0 <= k < |a| ==> a[k].lo == sorted[k].lo && (k !in heads ==> a[k] == sorted[k])
  }

  /** Sorted entry `j` is where the sweep starts its `k + 1`-th merged
      interval. */
  ghost predicate OpensAt(sorted: seq<Interval>, j: nat, k: nat)
  {
    j < |sorted| && |Sweep(sorted[..j])| == k && |Sweep(sorted[..j + 1])| == k + 1
  }

  /** Result entry `k` shares the sorted entry where the sweep opens its
      `k + 1`-th merged interval. This pins the heads down even when starts
      repeat. */
  ghost predicate HeadsAt(sorted: seq<Interval>, heads: seq<nat>)
  {
    forall k {:trigger OpensAt(sorted, heads[k], k)} :: 0 <= k < |heads| ==> OpensAt(sorted, heads[k], k)
  }

  /** The first entry opens the first merged interval. */
  lemma HeadsStart(sorted: seq<Interval>)
    requires |sorted| > 0
    ensures HeadsAt(sorted, [0])
  {
    assert sorted[..0] == [] && sorted[..1] == [sorted[0]];
    assert OpensAt(sorted, 0, 0);
  }

  /** Appending entry `i` as a new head keeps the heads where the sweep
      opens a new merged interval. */
  lemma HeadsAppend(sorted: seq<Interval>, result: seq<Interval>, heads: seq<nat>, i: int)
    requires 1 <= i < |sorted| && result == Sweep(sorted[..i]) && |heads| == |result|
    requires HeadsAt(sorted, heads) && sorted[i].lo > result[|result| - 1].hi
    ensures HeadsAt(sorted, heads + [i])
  {
    SweepNext(sorted, i);
    assert OpensAt(sorted, i, |heads|);
    forall k | 0 <= k < |heads| + 1
      ensures OpensAt(sorted, (heads + [i])[k], k)
    {
      if k < |heads| {
        assert (heads + [i])[k] == heads[k];
      }
    }
  }

  /** The loop's state after `i` entries: `result` is the sweep of the first
      `i` sorted entries, sharing storage with `a` as Shared says. */
  ghost predicate Swept(a: seq<Interval>, sorted: seq<Interval>, result: seq<Interval>, heads: seq<nat>, i: int)
  {
    1 <= i <= |sorted| && heads != [] && result == Sweep(sorted[..i]) && Shared(a, sorted, result, heads, i)
  }

  /** What one iteration reads: entry `i` is still as sorted, and the last
      head entry holds the last merged interval. */
  lemma SweptFacts(a: seq<Interval>, sorted: seq<Interval>, result: seq<Interval>, heads: seq<nat>, i: int)
    requires Swept(a, sorted, result, heads, i) && i < |a|
    ensures a[i] == sorted[i]
    ensures heads[|heads| - 1] < i && a[heads[|heads| - 1]] == result[|result| - 1]
  {
    assert i !in heads;
  }

  /** Widening the head entry of the last merged interval keeps the sharing. */
  lemma ExtendShared(a: seq<Interval>, sorted: seq<Interval>, result: seq<Interval>, heads: seq<nat>, i: int, e: int64)
    requires Shared(a, sorted, result, heads, i) && i < |a| && heads != []
    ensures var h := heads[|heads| - 1];
      var wider := Interval(a[h].lo, e);
      Shared(a[h := wider], sorted, result[..|result| - 1] + [wider], heads, i + 1)
  {
  }

  /** Absorbing an overlapping interval that reaches further widens the last one. */
  lemma ExtendSweep(sorted: seq<Interval>, result: seq<Interval>, i: int)
    requires 1 <= i < |sorted| && result == Sweep(sorted[..i])
    requires var last := result[|result| - 1]; sorted[i].lo <= last.hi && sorted[i].hi > last.hi
    ensures Sweep(sorted[..i + 1]) == result[..|result| - 1] + [Interval(result[|result| - 1].lo, sorted[i].hi)]
  {
    SweepNext(sorted, i);
  }

  /** Extending the end of the last merged interval writes through to its
      head entry. */
  lemma ExtendStep(a: seq<Interval>, sorted: seq<Interval>, result: seq<Interval>, heads: seq<nat>, i: int)
    requires Swept(a, sorted, result, heads, i) && i < |a|
    requires var last := a[heads[|heads| - 1]]; sorted[i].lo <= last.hi && sorted[i].hi > last.hi
    ensures var h := heads[|heads| - 1];
      var wider := Interval(a[h].lo, sorted[i].hi);
      Swept(a[h := wider], sorted, result[..|result| - 1] + [wider], heads, i + 1)
  {
    SweptFacts(a, sorted, result, heads, i);
    ExtendSweep(sorted, result, i);
    ExtendShared(a, sorted, result, heads, i, sorted[i].hi);
  }

  /** An interval inside the last merged one changes nothing. */
  lemma KeepStep(a: seq<Interval>, sorted: seq<Interval>, result: seq<Interval>, heads: seq<nat>, i: int)
    requires Swept(a, sorted, result, heads, i) && i < |a|
    requires var last := a[heads[|heads| - 1]]; sorted[i].lo <= last.hi && sorted[i].hi <= last.hi
    ensures Swept(a, sorted, result, heads, i + 1)
  {
    SweptFacts(a, sorted, result, heads, i);
    SweepNext(sorted, i);
    AbsorbInside(result, sorted[i]);
  }

  /** Appending entry `i` as a new head keeps the sharing. */
  lemma AppendShared(a: seq<Interval>, sorted: seq<Interval>, result: seq<Interval>, heads: seq<nat>, i: int)
    requires |a| == |sorted| && Shared(a, sorted, result, heads, i) && 0 <= i < |a| && a[i] == sorted[i] && i !in heads
    ensures Shared(a, sorted, result + [sorted[i]], heads + [i], i + 1)
  {
  }

  /** An interval starting after the last merged one ends is appended, and
      its entry becomes the new head. */
  lemma AppendStep(a: seq<Interval>, sorted: seq<Interval>, result: seq<Interval>, heads: seq<nat>, i: int)
    requires Swept(a, sorted, result, heads, i) && i < |a|
    requires sorted[i].lo > a[heads[|heads| - 1]].hi
    ensures Swept(a, sorted, result + [sorted[i]], heads + [i], i + 1)
  {
    SweptFacts(a, sorted, result, heads, i);
    SweepNext(sorted, i);
    AppendShared(a, sorted, result, heads, i);
  }

  /** `merge`: slices of length 0 or 1 are returned as they are. Otherwise
      the slice is sorted in place by start (`sorted`, ghost, is that order)
      and swept. Each result entry is the very inner slice of one input entry
      (`heads`, ghost, are their indices), so extending a result interval's end
      also rewrites that input entry: afterwards `intervals` keeps the sorted
      starts, and only its head entries have changed ends. What the merged
      intervals promise about the input is SweepOfPermutation. */
  method Merge(intervals: array<Interval>) returns (result: seq<Interval>, ghost sorted: seq<Interval>, ghost heads: seq<nat>)
    modifies intervals
    ensures intervals.Length <= 1 ==> result == old(intervals[..]) && intervals[..] == old(intervals[..])
    ensures intervals.Length > 1 ==>
      && SortedBy(sorted, Start)
      && multiset(sorted) == multiset(old(intervals[..]))
      && result == Sweep(sorted)
      && Shared(intervals[..], sorted, result, heads, intervals.Length)
      && HeadsAt(sorted, heads)
    ensures intervals.Length > 0 ==> 1 <= |result| <= intervals.Length
  {
    if intervals.Length <= 1 {
      return intervals[..], intervals[..], [];
    }
    SortInPlace(intervals, Start);
    sorted := intervals[..];
    result := [intervals[0]];
    // `head` is the input entry the last result entry shares its storage with
    var head := 0;
    heads := [0];
    assert sorted[..1] == [sorted[0]];
    HeadsStart(sorted);
    for i := 1 to intervals.Length
      invariant Swept(intervals[..], sorted, result, heads, i)
      invariant HeadsAt(sorted, heads)
      invariant head == heads[|heads| - 1]
    {
      ghost var a := intervals[..];
      SweptFacts(a, sorted, result, heads, i);
      var current := intervals[i];
      var last := intervals[head];
      if current.lo <= last.hi {
        if current.hi > last.hi {
          ExtendStep(a, sorted, result, heads, i);
          intervals[head] := Interval(last.lo, current.hi);
          assert intervals[..] == a[head := Interval(last.lo, current.hi)];
          result := result[..|result| - 1] + [intervals[head]];
        } else {
          KeepStep(a, sorted, result, heads, i);
        }
      } else {
        AppendStep(a, sorted, result, heads, i);
        HeadsAppend(sorted, result, heads, i);
        result := result + [current];
        head := i;
        heads := heads + [i];
      }
    }
    assert sorted[..intervals.Length] == sorted;
  }

  /** The first documented example: [[1,3],[2,6],[8,10],[15,18]], already
      sorted, merges to [[1,6],[8,10],[15,18]]. */
  lemma SweepExample()
    ensures Sweep([Interval(1, 3), Interval(2, 6), Interval(8, 10), Interval(15, 18)])
         == [Interval(1, 6), Interval(8, 10), Interval(15, 18)]
  {
    var s := [Interval(1, 3), Interval(2, 6), Interval(8, 10), Interval(15, 18)];
    var r1, r2 := [Interval(1, 3)], [Interval(1, 6)];
    var r3 := [Interval(1, 6), Interval(8, 10)];
    assert Sweep(s[..1]) == r1 by {
      assert s[..1] == r1;
    }
    assert Sweep(s[..2]) == r2 by {
      SweepNext(s, 1);
      assert Absorb(r1, s[1]) == r2;
    }
    assert Sweep(s[..3]) == r3 by {
      SweepNext(s, 2);
      assert Absorb(r2, s[2]) == r3;
    }
    SweepNext(s, 3);
    assert Absorb(r3, s[3]) == r3 + [Interval(15, 18)];
    assert s[..4] == s;
  }

  /** The second documented example: touching intervals [[1,4],[4,5]] merge
      to [[1,5]]. */
  lemma TouchingExample()
    ensures Sweep([Interval(1, 4), Interval(4, 5)]) == [Interval(1, 5)]
  {
    var t := [Interval(1, 4), Interval(4, 5)];
    assert t[..1] == [Interval(1, 4)];
  }

  /** Intervals with integer ends that are adjacent but neither overlap nor
      touch stay apart: [[1,2],[3,4]] merges to itself, and 2.5 is covered by
      neither. */
  lemma AdjacentExample()
    ensures Sweep([Interval(1, 2), Interval(3, 4)]) == [Interval(1, 2), Interval(3, 4)]
    ensures !Covers([Interval(1, 2), Interval(3, 4)], 2.5)
  {
    var t := [Interval(1, 2), Interval(3, 4)];
    assert t[..1] == [Interval(1, 2)];
  }

  /** The third documented example: [[4,7],[1,4]] sorts to [[1,4],[4,7]],
      which merges to [[1,7]]. */
  lemma UnsortedExample(sorted: seq<Interval>)
    requires multiset(sorted) == multiset([Interval(4, 7), Interval(1, 4)]) && SortedBy(sorted, Start)
    ensures sorted == [Interval(1, 4), Interval(4, 7)]
    ensures Sweep(sorted) == [Interval(1, 7)]
  {
    assert |sorted| == 2 by {
      assert |multiset(sorted)| == |sorted|;
    }
    assert sorted[0] in multiset(sorted) && sorted[1] in multiset(sorted);
    assert Start(sorted[0]) <= Start(sorted[1]);
    assert sorted[..1] == [Interval(1, 4)];
  }

  /** After merging that example, the input slice holds [[1,7],[4,7]]: the
      first entry was widened through the result, the second is as sorted. */
  lemma UnsortedExampleShared(a: seq<Interval>, sorted: seq<Interval>, heads: seq<nat>)
    requires sorted == [Interval(1, 4), Interval(4, 7)]
    requires Shared(a, sorted, [Interval(1, 7)], heads, 2)
    ensures a == [Interval(1, 7), Interval(4, 7)]
  {
    assert a[heads[0]] == Interval(1, 7);
    assert heads == [0];
    assert 1 !in heads;
  }

  /** With repeated starts the heads are still fixed: for the order
      [[1,2],[1,3]] the only head is entry 0, which `last[1] = 3` widens, so
      the input ends as [[1,3],[1,3]]. */
  lemma RepeatedStartShared(a: seq<Interval>, heads: seq<nat>)
    requires Shared(a, [Interval(1, 2), Interval(1, 3)], [Interval(1, 3)], heads, 2)
    requires HeadsAt([Interval(1, 2), Interval(1, 3)], heads)
    ensures heads == [0]
    ensures a == [Interval(1, 3), Interval(1, 3)]
  {
    var sorted := [Interval(1, 2), Interval(1, 3)];
    assert OpensAt(sorted, heads[0], 0);
    assert sorted[..1] == [Interval(1, 2)];
    assert heads[0] == 0;
    assert 1 !in heads;
  }

  /** The third documented example run through `merge`: [[4,7],[1,4]] gives
      [[1,7]], and the input slice now holds [[1,7],[4,7]] because the first
      result entry is its first inner slice. */
  method MergeExample()
  {
    var a := new Interval[2];
    a[0], a[1] := Interval(4, 7), Interval(1, 4);
    assert a[..] == [Interval(4, 7), Interval(1, 4)];
    var result, sorted, heads := Merge(a);
    UnsortedExample(sorted);
    assert result == [Interval(1, 7)];
    UnsortedExampleShared(a[..], sorted, heads);
    assert a[..] == [Interval(1, 7), Interval(4, 7)];
  }
}
