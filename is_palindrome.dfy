/** Problem 9, "palindrome number" (task01/isPalindrome/main.go): an integer
    is a palindrome when its decimal text, as `strconv.Itoa` writes it, reads
    the same backwards. Two solutions: reverse a copy and compare, or walk
    two indices towards each other. */
module Palindromes {
  import opened GoBuiltins

  /** The character of a decimal digit. */
  function DigitChar(d: nat): (c: char)
    requires d < 10
    ensures '0' <= c <= '9' && c as int - '0' as int == d
  {
    ('0' as int + d) as char
  }

  /** The decimal digits of `n`, most significant first, without leading zeros. */
  function Digits(n: nat): (s: seq<char>)
    ensures |s| >= 1
    ensures forall k :: 0 <= k < |s| ==> '0' <= s[k] <= '9'
    ensures s[0] == '0' <==> n == 0
    ensures n < 10 <==> |s| == 1
  {
    if n < 10 then [DigitChar(n)] else Digits(n / 10) + [DigitChar(n % 10)]
  }

  /** `strconv.Itoa`: the decimal text of a Go `int`, with a leading '-' for
      negative values. */
  function Itoa(n: int64): (s: seq<char>)
    ensures |s| >= 1
    ensures s[0] == '-' <==> n < 0
    ensures forall k :: 0 < k < |s| ==> '0' <= s[k] <= '9'
  {
    if n < 0 then ['-'] + Digits(-(n as int)) else Digits(n as int)
  }

  /** The number a string of decimal digits denotes. */
  function Value(s: seq<char>): int
    requires forall k :: 0 <= k < |s| ==> '0' <= s[k] <= '9'
  {
    if s == [] then 0 else 10 * Value(s[..|s| - 1]) + (s[|s| - 1] as int - '0' as int)
  }

  /** The digits denote the number. */
  lemma {:induction false} ValueDigits(n: nat)
    ensures Value(Digits(n)) == n
  {
    if n >= 10 {
      ValueDigits(n / 10);
      var s := Digits(n);
      assert s[..|s| - 1] == Digits(n / 10);
    }
  }

  /** `strconv.Atoi` on the texts `Itoa` writes: an optional '-' and digits. */
  function Atoi(s: seq<char>): int
    requires |s| >= 1 && (s[0] == '-' || '0' <= s[0] <= '9')
    requires forall k :: 0 < k < |s| ==> '0' <= s[k] <= '9'
  {
    if s[0] == '-' then -Value(s[1..]) else Value(s)
  }

  /** Reading `Itoa`'s text back gives the number. */
  lemma AtoiItoa(n: int64)
    ensures Atoi(Itoa(n)) == n as int
  {
    if n < 0 {
      assert Itoa(n)[1..] == Digits(-(n as int));
      ValueDigits(-(n as int));
    } else {
      ValueDigits(n as int);
    }
  }

  /** So different numbers have different texts. */
  lemma ItoaInjective(a: int64, b: int64)
    requires Itoa(a) == Itoa(b)
    ensures a == b
  {
    AtoiItoa(a);
    AtoiItoa(b);
  }

  /** `s` backwards. */
  function Reverse(s: seq<char>): (r: seq<char>)
    ensures |r| == |s|
    ensures forall k :: 0 <= k < |s| ==> r[k] == s[|s| - 1 - k]
  {
    seq(|s|, k requires 0 <= k < |s| => s[|s| - 1 - k])
  }

  lemma ReverseReverse(s: seq<char>)
    ensures Reverse(Reverse(s)) == s
  {
  }

  /** Each character equals its mirror image. */
  predicate Mirrored(s: seq<char>)
  {
    forall k :: 0 <= k < |s| ==> s[k] == s[|s| - 1 - k]
  }

  lemma MirroredIffReverse(s: seq<char>)
    ensures Mirrored(s) <==> s == Reverse(s)
  {
    if Mirrored(s) {
      assert forall k :: 0 <= k < |s| ==> Reverse(s)[k] == s[k];
    }
    if s == Reverse(s) {
      assert forall k :: 0 <= k < |s| ==> s[k] == Reverse(s)[k];
    }
  }

  /** The swap loop of `isPalindrome`: exchanges `runes[i]` and `runes[j]`
      while `i < j`, moving both inwards, which reverses the slice in place. */
  method ReverseInPlace(runes: array<char>)
    modifies runes
    ensures runes[..] == Reverse(old(runes[..]))
  {
    ghost var val := runes[..];
    var n := runes.Length;
    var i, j := 0, n - 1;
    while i < j
      invariant 0 <= i <= j + 1 <= n && i + j == n - 1
      invariant forall k :: 0 <= k < i ==> runes[k] == val[n - 1 - k]
      invariant forall k :: i <= k <= j ==> runes[k] == val[k]
      invariant forall k :: j < k < n ==> runes[k] == val[n - 1 - k]
    {
      runes[i], runes[j] := runes[j], runes[i];
      i, j := i + 1, j - 1;
    }
  }

  /** `isPalindrome`: converts the text to a fresh rune slice, reverses that
      slice in place by swapping from both ends, and compares. The answer is
      whether the text equals its reverse. */
  method IsPalindrome(num: int64) returns (r: bool)
    ensures r <==> Itoa(num) == Reverse(Itoa(num))
  {
    var val := Itoa(num);
    var runes := new char[|val|](k requires 0 <= k < |val| => val[k]);
    assert runes[..] == val;
    ReverseInPlace(runes);
    r := val == runes[..];
  }

  /** `isPalindromeStr`: compares `str[left]` with `str[right]` while
      `left < right`, moving both inwards; true when no pair differs. */
  method IsPalindromeStr(num: int64) returns (r: bool)
    ensures r <==> Mirrored(Itoa(num))
  {
    var str := Itoa(num);
    var left, right := 0, |str| - 1;
    while left < right
      invariant 0 <= left <= right + 1 <= |str| && left + right == |str| - 1
      invariant forall k :: 0 <= k < left ==> str[k] == str[|str| - 1 - k]
    {
      if str[left] != str[right] {
        return false;
      }
      left, right := left + 1, right - 1;
    }
    return true;
  }

  /** Both solutions agree on every input. */
  method SolutionsAgree(num: int64) returns (a: bool, b: bool)
    ensures a == b
  {
    a := IsPalindrome(num);
    b := IsPalindromeStr(num);
    MirroredIffReverse(Itoa(num));
  }

  /** Negative numbers are never palindromes: '-' leads, a digit ends. */
  lemma NegativeNotPalindrome(n: int64)
    requires n < 0
    ensures !Mirrored(Itoa(n))
  {
    var s := Itoa(n);
    assert s[|s| - 1] != '-';
  }

  /** Single digits are palindromes. */
  lemma DigitPalindrome(n: int64)
    requires 0 <= n < 10
    ensures Mirrored(Itoa(n))
  {
  }

  /** A positive multiple of ten is not a palindrome: it ends in '0' but
      does not start with one. */
  lemma TrailingZeroNotPalindrome(n: int64)
    requires n > 0 && n % 10 == 0
    ensures !Mirrored(Itoa(n))
  {
    var s := Itoa(n);
    assert s == Digits(n as int / 10) + ['0'];
    assert s[|s| - 1] == '0' && s[0] != '0';
  }

  lemma ItoaExamples()
    ensures Itoa(121) == "121" && Itoa(454) == "454" && Itoa(123) == "123"
  {
  }

  /** The documented examples: 121 and 454 are palindromes, 123 is not, nor
      is -121. */
  method IsPalindromeExamples()
  {
    ItoaExamples();
    var a := IsPalindromeStr(121);
    assert a;
    var b := IsPalindromeStr(454);
    assert b;
    var c := IsPalindromeStr(123);
    assert !c by {
      assert Itoa(123)[0] != Itoa(123)[2];
    }
    var d := IsPalindrome(-121);
    assert !d by {
      NegativeNotPalindrome(-121);
      MirroredIffReverse(Itoa(-121));
    }
  }
}
