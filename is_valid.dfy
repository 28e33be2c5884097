/** Problem 20, "valid parentheses" (task01/isValid/main.go): a string of
    brackets is valid when every opening bracket is closed by one of the same
    kind, in the right order. Go indexes a string byte by byte, so the input
    is a byte sequence. */
module Brackets {
  import opened GoBuiltins

  datatype Option<T> = None | Some(value: T)

  const OpenParen: byte := 40   // '('
  const CloseParen: byte := 41  // ')'
  const OpenSquare: byte := 91  // '['
  const CloseSquare: byte := 93 // ']'
  const OpenCurly: byte := 123  // '{'
  const CloseCurly: byte := 125 // '}'

  /** The `paris` table: a closing bracket maps to the opening one it needs;
      any other byte is absent. */
  function Pairs(c: byte): (r: Option<byte>)
    ensures r.Some? <==> c in {CloseParen, CloseSquare, CloseCurly}
    ensures r.Some? ==> r.value in {OpenParen, OpenSquare, OpenCurly}
  {
    if c == CloseParen then Some(OpenParen)
    else if c == CloseSquare then Some(OpenSquare)
    else if c == CloseCurly then Some(OpenCurly)
    else None
  }

  /** The grammar of valid strings: empty, or an opening bracket, a valid
      string, the matching closing bracket, and another valid string. */
  ghost predicate Balanced(s: seq<byte>)
    decreases |s|, 1
  {
    s == [] || exists k :: SplitsAt(s, k)
  }

  /** `s[0]` is closed by `s[k]`, with valid strings inside and after. */
  ghost predicate SplitsAt(s: seq<byte>, k: int)
    decreases |s|, 0
  {
    0 < k < |s| && Pairs(s[k]) == Some(s[0]) && Balanced(s[1..k]) && Balanced(s[k + 1..])
  }

  /** One iteration of the loop: a closing bracket pops the matching opening
      one off the top (and fails, `None`, when the stack is empty or its top
      differs); every other byte is pushed. */
  function Step(stack: seq<byte>, c: byte): Option<seq<byte>>
  {
    match Pairs(c)
    case Some(left) =>
      if |stack| == 0 || stack[|stack| - 1] != left then None else Some(stack[..|stack| - 1])
    case None => Some(stack + [c])
  }

  /** The stack after feeding `s` to the loop, starting from `stack`. */
  function Run(stack: seq<byte>, s: seq<byte>): Option<seq<byte>>
  {
    if s == [] then Some(stack)
    else
      match Run(stack, s[..|s| - 1])
      case None => None
      case Some(t) => Step(t, s[|s| - 1])
  }

  /** Feeding one more byte is one more step. */
  lemma RunSnoc(stack: seq<byte>, u: seq<byte>, c: byte)
    ensures Run(stack, u + [c]) == match Run(stack, u) case None => None case Some(t) => Step(t, c)
  {
    assert (u + [c])[..|u|] == u;
  }

  /** Feeding `u + v` is feeding `u`, then `v`; a failure stays a failure. */
  lemma {:induction false} RunAppend(stack: seq<byte>, u: seq<byte>, v: seq<byte>)
    ensures Run(stack, u + v) == match Run(stack, u) case None => None case Some(t) => Run(t, v)
    decreases |v|
  {
    if v == [] {
      assert u + v == u;
    } else {
      var w := v[..|v| - 1];
      assert (u + v)[..|u + v| - 1] == u + w;
      assert (u + v)[|u + v| - 1] == v[|v| - 1];
      RunAppend(stack, u, w);
    }
  }

  /** Bytes below the stack the run starts from are never looked at while the
      run succeeds. */
  lemma {:induction false} RunFrame(below: seq<byte>, stack: seq<byte>, s: seq<byte>, t: seq<byte>)
    requires Run(stack, s) == Some(t)
    ensures Run(below + stack, s) == Some(below + t)
    decreases |s|
  {
    if s != [] {
      var t' := Run(stack, s[..|s| - 1]).value;
      RunFrame(below, stack, s[..|s| - 1], t');
      var c := s[|s| - 1];
      if Pairs(c).Some? && t' != [] {
        assert (below + t')[|below + t'| - 1] == t'[|t'| - 1];
        assert (below + t')[..|below + t'| - 1] == below + t'[..|t'| - 1];
      } else if Pairs(c).None? {
        assert (below + t') + [c] == below + (t' + [c]);
      }
    }
  }

  /** Conversely, a run that never digs below its `base` did not need it. */
  lemma {:induction false} RunUnframe(base: seq<byte>, s: seq<byte>)
    requires forall j :: 0 <= j <= |s| ==> Run(base, s[..j]).Some? && |Run(base, s[..j]).value| >= |base|
    requires Run(base, s).Some? && |Run(base, s).value| >= |base|
    ensures Run(base, s).value[..|base|] == base
    ensures Run([], s) == Some(Run(base, s).value[|base|..])
    decreases |s|
  {
    if s != [] {
      var w, c := s[..|s| - 1], s[|s| - 1];
      assert s == w + [c];
      forall j | 0 <= j <= |w|
        ensures Run(base, w[..j]).Some? && |Run(base, w[..j]).value| >= |base|
      {
        assert w[..j] == s[..j];
      }
      assert s[..|w|] == w;
      RunUnframe(base, w);
      var t := Run(base, w).value;
      RunSnoc(base, w, c);
      RunSnoc([], w, c);
      assert Run(base, s) == Step(t, c);
      assert Run([], s) == Step(t[|base|..], c);
      if Pairs(c).Some? {
        assert |t| > |base| && t[|t| - 1] == Pairs(c).value;
        assert t[|base|..][|t| - |base| - 1] == t[|t| - 1];
        assert t[|base|..][..|t| - |base| - 1] == t[..|t| - 1][|base|..];
        assert t[..|t| - 1][..|base|] == base;
      } else {
        assert t[|base|..] + [c] == (t + [c])[|base|..];
        assert (t + [c])[..|base|] == base;
      }
    } else {
      assert base[|base|..] == [];
    }
  }

  /** Every prefix of a successful run succeeds. */
  lemma RunPrefix(stack: seq<byte>, s: seq<byte>, j: int)
    requires 0 <= j <= |s| && Run(stack, s).Some?
    ensures Run(stack, s[..j]).Some?
  {
    assert s == s[..j] + s[j..];
    RunAppend(stack, s[..j], s[j..]);
  }

  /** Soundness: a balanced string leaves any stack as it found it. */
  lemma {:induction false} BalancedRuns(stack: seq<byte>, s: seq<byte>)
    requires Balanced(s)
    ensures Run(stack, s) == Some(stack)
    decreases |s|
  {
    if s != [] {
      var k :| SplitsAt(s, k);
      var o, inner, c, rest := s[0], s[1..k], s[k], s[k + 1..];
      assert Pairs(o).None? by {
        assert o in {OpenParen, OpenSquare, OpenCurly};
      }
      assert s == [o] + inner + [c] + rest;
      assert Run(stack, [o]) == Some(stack + [o]) by {
        assert [o][..0] == [];
      }
      BalancedRuns(stack + [o], inner);
      RunAppend(stack, [o], inner);
      assert Run(stack, [o] + inner + [c]) == Some(stack) by {
        assert ([o] + inner + [c])[..|inner| + 1] == [o] + inner;
        assert (stack + [o])[..|stack|] == stack;
      }
      BalancedRuns(stack, rest);
      RunAppend(stack, [o] + inner + [c], rest);
    }
  }

  /** A run from the empty stack can only start by pushing. */
  lemma FirstPushed(s: seq<byte>)
    requires s != [] && Run([], s).Some?
    ensures Pairs(s[0]).None? && Run([], s[..1]) == Some([s[0]])
  {
    RunPrefix([], s, 1);
    RunSnoc([], [], s[0]);
    assert s[..1] == [] + [s[0]];
  }

  /** Up to the first return to the empty stack, the run is the opening
      bracket, a part that takes the empty stack back to empty, and the
      bracket that closes it. */
  lemma FirstReturn(s: seq<byte>, e: nat)
    requires 2 <= e <= |s| && Run([], s[..e]) == Some([])
    requires forall j :: 1 <= j < e ==> Run([], s[..j]).Some? && Run([], s[..j]).value != []
    requires Run([], s[..1]) == Some([s[0]])
    ensures Pairs(s[e - 1]) == Some(s[0])
    ensures Run([], s[1..e - 1]) == Some([])
  {
    var o, k := s[0], e - 1;
    var inner := s[1..k];
    InnerAbove(s, e, o, inner);
    assert inner[..|inner|] == inner;
    RunUnframe([o], inner);
    var t := Run([o], inner).value;
    LastStep(s, e, t);
    assert t == [o] && t[1..] == [];
  }

  /** Before the first return, the inner part never digs below the opening
      bracket. */
  lemma InnerAbove(s: seq<byte>, e: nat, o: byte, inner: seq<byte>)
    requires 2 <= e <= |s| && o == s[0] && inner == s[1..e - 1]
    requires forall j :: 1 <= j < e ==> Run([], s[..j]).Some? && Run([], s[..j]).value != []
    requires Run([], s[..1]) == Some([o])
    ensures forall j :: 0 <= j <= |inner| ==> Run([o], inner[..j]).Some? && |Run([o], inner[..j]).value| >= 1
  {
    forall j | 0 <= j <= |inner|
      ensures Run([o], inner[..j]).Some? && |Run([o], inner[..j]).value| >= 1
    {
      assert s[..j + 1] == [o] + inner[..j];
      RunAppend([], [o], inner[..j]);
    }
  }

  /** The byte at the first return takes the stack `t` left by the inner part
      to empty. */
  lemma LastStep(s: seq<byte>, e: nat, t: seq<byte>)
    requires 2 <= e <= |s| && Run([], s[..e]) == Some([])
    requires Run([], s[..1]) == Some([s[0]])
    requires Run([s[0]], s[1..e - 1]) == Some(t)
    ensures Step(t, s[e - 1]) == Some([])
  {
    var o, k := s[0], e - 1;
    var inner := s[1..k];
    assert s[..k] == [o] + inner;
    assert s[..e] == s[..k] + [s[k]];
    RunAppend([], [o], inner);
    RunSnoc([], [o] + inner, s[k]);
  }

  /** Completeness: a string that takes the empty stack back to empty is
      balanced. Its first byte is pushed; the first time the stack is empty
      again closes that bracket, and both the part inside and the rest take
      the empty stack back to empty. */
  lemma {:induction false} RunsBalanced(s: seq<byte>)
    requires Run([], s) == Some([])
    ensures Balanced(s)
    decreases |s|
  {
    if s != [] {
      FirstPushed(s);
      var e := FirstEmpty(s);
      FirstReturn(s, e);
      RunsBalanced(s[1..e - 1]);
      var rest := s[e..];
      assert s == s[..e] + rest;
      RunAppend([], s[..e], rest);
      RunsBalanced(rest);
      assert SplitsAt(s, e - 1);
    }
  }

  /** The least `e >= 2` at which the prefix `s[..e]` empties the stack
      again; every shorter non-empty prefix leaves something on it. */
  ghost function FirstEmpty(s: seq<byte>): (e: nat)
    requires s != [] && Run([], s) == Some([]) && Run([], s[..1]) == Some([s[0]])
    ensures 2 <= e <= |s| && Run([], s[..e]) == Some([])
    ensures forall j :: 1 <= j < e ==> Run([], s[..j]).Some? && Run([], s[..j]).value != []
  {
    assert s[..|s|] == s;
    FirstEmptyFrom(s, 1)
  }

  ghost function {:induction false} FirstEmptyFrom(s: seq<byte>, from: nat): (e: nat)
    requires 1 <= from <= |s| && Run([], s) == Some([])
    requires forall j :: 1 <= j <= from ==> Run([], s[..j]).Some? && Run([], s[..j]).value != []
    ensures from < e <= |s| && Run([], s[..e]) == Some([])
    ensures forall j :: 1 <= j < e ==> Run([], s[..j]).Some? && Run([], s[..j]).value != []
    decreases |s| - from
  {
    assert s[..|s|] == s;
    RunPrefix([], s, from + 1);
    if Run([], s[..from + 1]) == Some([]) then from + 1
    else FirstEmptyFrom(s, from + 1)
  }

  /** The loop's answer, `Run([], s) == Some([])`, is exactly the grammar. */
  lemma RunIffBalanced(s: seq<byte>)
    ensures Run([], s) == Some([]) <==> Balanced(s)
  {
    if Balanced(s) {
      BalancedRuns([], s);
    }
    if Run([], s) == Some([]) {
      RunsBalanced(s);
    }
  }

  /** A valid string holds nothing but the six brackets, so any other byte
      makes `isValid` false: it is pushed and never popped. */
  lemma {:induction false} BalancedBrackets(s: seq<byte>)
    requires Balanced(s)
    ensures forall i :: 0 <= i < |s| ==> s[i] in {OpenParen, CloseParen, OpenSquare, CloseSquare, OpenCurly, CloseCurly}
    decreases |s|
  {
    if s != [] {
      var k :| SplitsAt(s, k);
      BalancedBrackets(s[1..k]);
      BalancedBrackets(s[k + 1..]);
      forall i | 0 <= i < |s|
        ensures s[i] in {OpenParen, CloseParen, OpenSquare, CloseSquare, OpenCurly, CloseCurly}
      {
        if 0 < i < k {
          assert s[i] == s[1..k][i - 1];
        } else if k < i {
          assert s[i] == s[k + 1..][i - k - 1];
        }
      }
    }
  }

  /** A balanced string has even length. */
  lemma {:induction false} BalancedEven(s: seq<byte>)
    requires Balanced(s)
    ensures |s| % 2 == 0
    decreases |s|
  {
    if s != [] {
      var k :| SplitsAt(s, k);
      BalancedEven(s[1..k]);
      BalancedEven(s[k + 1..]);
    }
  }

  /** `isValid`: odd lengths are rejected at once; otherwise a slice used as
      a stack takes each byte in turn, and the string is valid when the stack
      ends empty. The answer is exactly the bracket grammar. */
  method IsValid(str: seq<byte>) returns (r: bool)
    ensures r <==> Balanced(str)
  {
    if |str| % 2 != 0 {
      if Balanced(str) {
        BalancedEven(str);
      }
      return false;
    }
    var stack: seq<byte> := [];
    for i := 0 to |str|
      invariant Run([], str[..i]) == Some(stack)
    {
      var ch := str[i];
      assert str[..i + 1][..i] == str[..i];
      var pair := Pairs(ch);
      if pair.Some? {
        var matchingLeft := pair.value;
        if |stack| == 0 || stack[|stack| - 1] != matchingLeft {
          assert Run([], str[..i + 1]) == None;
          assert str == str[..i + 1] + str[i + 1..];
          RunAppend([], str[..i + 1], str[i + 1..]);
          RunIffBalanced(str);
          return false;
        }
        stack := stack[..|stack| - 1];
      } else {
        stack := stack + [ch];
      }
    }
    assert str[..|str|] == str;
    RunIffBalanced(str);
    return |stack| == 0;
  }

  /** The documented example "()[]{}" is valid, and so is its prefix "()". */
  lemma ValidFlatExample()
    ensures Balanced([40, 41])
    ensures Balanced([40, 41, 91, 93, 123, 125])
  {
    assert Balanced([]);
    PairBalanced(123, 125, []);
    assert [123, 125] + [] == [123, 125];
    PairBalanced(91, 93, [123, 125]);
    assert [91, 93] + [123, 125] == [91, 93, 123, 125];
    PairBalanced(40, 41, [91, 93, 123, 125]);
    assert [40, 41] + [91, 93, 123, 125] == [40, 41, 91, 93, 123, 125];
    PairBalanced(40, 41, []);
    assert [40, 41] + [] == [40, 41];
  }

  /** An opener, its closer, then a balanced rest, is balanced. */
  lemma PairBalanced(o: byte, c: byte, rest: seq<byte>)
    requires Pairs(c) == Some(o) && Balanced(rest)
    ensures Balanced([o, c] + rest)
  {
    var s := [o, c] + rest;
    assert s[1..1] == [] && s[2..] == rest;
    assert SplitsAt(s, 1);
  }

  /** The documented example "([])" is valid. */
  lemma ValidNestedExample()
    ensures Balanced([40, 91, 93, 41])
  {
    var b: seq<byte> := [40, 91, 93, 41];
    assert Run([], b[..1]) == Some([40]) by { assert b[..1][..0] == [] && [] + [40] == [40]; }
    assert Run([], b[..2]) == Some([40, 91]) by { assert b[..2][..1] == b[..1] && [40] + [91] == [40, 91]; }
    assert Run([], b[..3]) == Some([40]) by { assert b[..3][..2] == b[..2]; }
    assert Run([], b) == Some([]) by { assert b[..4] == b; assert b[..4][..3] == b[..3]; }
    RunIffBalanced(b);
  }

  /** The documented invalid examples "(]" and "([)]". */
  lemma InvalidExamples()
    ensures !Balanced([40, 93])
    ensures !Balanced([40, 91, 41, 93])
  {
    var d: seq<byte> := [40, 93];
    assert Run([], d[..1]) == Some([40]) by { assert d[..1][..0] == [] && [] + [40] == [40]; }
    assert Run([], d) == None by { assert d[..2] == d; assert d[..2][..1] == d[..1]; }
    RunIffBalanced(d);
    var c: seq<byte> := [40, 91, 41, 93];
    assert Run([], c[..1]) == Some([40]) by { assert c[..1][..0] == [] && [] + [40] == [40]; }
    assert Run([], c[..2]) == Some([40, 91]) by { assert c[..2][..1] == c[..1] && [40] + [91] == [40, 91]; }
    assert Run([], c[..3]) == None by { assert c[..3][..2] == c[..2]; }
    assert c == c[..3] + [93];
    RunSnoc([], c[..3], 93);
    RunIffBalanced(c);
  }

  /** The documented examples through `isValid`, as bytes: '(' is 40, ')' 41,
      '[' 91, ']' 93, '{' 123 and '}' 125. */
  method IsValidExamples()
  {
    ValidFlatExample();
    ValidNestedExample();
    InvalidExamples();
    var r := IsValid([40, 41]);
    assert r;
    r := IsValid([40, 41, 91, 93, 123, 125]);
    assert r;
    r := IsValid([40, 93]);
    assert !r;
    r := IsValid([40, 91, 93, 41]);
    assert r;
    r := IsValid([40, 91, 41, 93]);
    assert !r;
  }
}
