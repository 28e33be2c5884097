/** Problem 14, "longest common prefix" (task01/longestCommonPrefix/main.go),
    the horizontal method: start from the first string and cut it down to
    what it shares with each following string. Go strings are compared byte
    by byte. */
module Prefixes {
  import opened GoBuiltins

  /** `p` is a prefix of each of the first `n` strings. */
  predicate PrefixOfFirst(p: seq<byte>, strs: seq<seq<byte>>, n: int)
    requires 0 <= n <= |strs|
  {
    forall k :: 0 <= k < n ==> p <= strs[k]
  }

  /** A prefix of a prefix is a prefix. */
  lemma PrefixTrans(p: seq<byte>, q: seq<byte>, s: seq<byte>)
    requires p <= q && q <= s
    ensures p <= s
  {
    assert q[..|p|] == p;
  }

  /** Two prefixes of one string: the shorter is a prefix of the longer. */
  lemma PrefixesOrdered(p: seq<byte>, q: seq<byte>, s: seq<byte>)
    requires p <= s && q <= s && |p| <= |q|
    ensures p <= q
  {
    assert forall k :: 0 <= k < |p| ==> p[k] == s[k] == q[k];
  }

  /** `longestCommonPrefix`: "" for an empty list; otherwise the first string,
      cut after each following string to the bytes it shares with it,
      returning "" as soon as nothing is left. The result is a prefix of
      every string, and every common prefix is a prefix of it, so it is the
      longest one. The list is only read. */
  method LongestCommonPrefix(strs: seq<seq<byte>>) returns (prefix: seq<byte>)
    ensures strs == [] ==> prefix == []
    ensures |strs| == 1 ==> prefix == strs[0]
    ensures PrefixOfFirst(prefix, strs, |strs|)
    ensures forall p :: strs != [] && PrefixOfFirst(p, strs, |strs|) ==> p <= prefix
  {
    if |strs| == 0 {
      return [];
    }
    prefix := strs[0];
    for i := 1 to |strs|
      invariant PrefixOfFirst(prefix, strs, i)
      invariant forall p :: PrefixOfFirst(p, strs, i) ==> p <= prefix
    {
      var s := strs[i];
      var j := 0;
      while j < |prefix| && j < |s| && prefix[j] == s[j]
        invariant 0 <= j <= |prefix| && j <= |s|
        invariant prefix[..j] == s[..j]
      {
        j := j + 1;
      }
      ghost var old_prefix := prefix;
      prefix := prefix[..j];
      forall k | 0 <= k < i
        ensures prefix <= strs[k]
      {
        PrefixTrans(prefix, old_prefix, strs[k]);
      }
      ghost var n := i + 1;
      forall p | PrefixOfFirst(p, strs, n)
        ensures p <= prefix
      {
        assert PrefixOfFirst(p, strs, i);
        assert p <= old_prefix && p <= s;
        PrefixesOrdered(p, prefix, old_prefix);
      }
      if prefix == [] {
        forall k | i < k < |strs|
          ensures prefix <= strs[k]
        {
        }
        forall p | PrefixOfFirst(p, strs, |strs|)
          ensures p <= prefix
        {
          assert PrefixOfFirst(p, strs, n);
        }
        return [];
      }
    }
    if |strs| == 1 {
      assert PrefixOfFirst(strs[0], strs, 1);
    }
  }

  /** The first documented example, byte by byte: "flower", "flow", "flight". */
  lemma FlowerBytes()
    ensures Ascii("flower") == [102, 108, 111, 119, 101, 114]
    ensures Ascii("flow") == [102, 108, 111, 119]
    ensures Ascii("flight") == [102, 108, 105, 103, 104, 116]
    ensures Ascii("fl") == [102, 108]
  {
  }

  /** The documented examples: "fl" for ["flower","flow","flight"], and ""
      for ["dog","racecar","car"], which disagree at the first byte. */
  method LongestCommonPrefixExamples()
  {
    FlowerBytes();
    var flowers := [Ascii("flower"), Ascii("flow"), Ascii("flight")];
    var p := LongestCommonPrefix(flowers);
    assert PrefixOfFirst(Ascii("fl"), flowers, 3);
    assert p <= flowers[1] && p <= flowers[2] && flowers[1][2] != flowers[2][2];
    assert Ascii("fl") <= p && |p| <= 2;
    assert p == Ascii("fl");
    var animals := [Ascii("dog"), Ascii("racecar"), Ascii("car")];
    var q := LongestCommonPrefix(animals);
    assert q <= animals[0] && q <= animals[1] && animals[0][0] != animals[1][0];
    assert q == [];
  }
}
