/** Go's built-in `int`, `byte` and the operators the exercises apply to them.

    `int` is 64 bits wide (the width on every 64-bit platform); arithmetic on it
    wraps around modulo 2^64, and `^` works on the two's-complement bit pattern.
    Both are written out here so that the models never silently use unbounded
    integers where Go would overflow. */
module GoBuiltins {

  const TWO64: int := 0x1_0000_0000_0000_0000
  const MIN64: int := -0x8000_0000_0000_0000

  /** A Go `int` (64-bit, signed). */
  newtype int64 = x: int | -0x8000_0000_0000_0000 <= x < 0x8000_0000_0000_0000

  /** The numeric value of a Go `int`: the key `sort.IntSlice` orders by. */
  function AsInt(x: int64): int { x as int }

  /** A Go `byte`. */
  newtype byte = x: int | 0 <= x < 256

  /** The value a Go `int` holds after an arithmetic result `x` wraps around:
      the unique 64-bit value congruent to `x` modulo 2^64. */
  function Wrap(x: int): (r: int64)
    ensures MIN64 <= x < MIN64 + TWO64 ==> r as int == x
    ensures (x - r as int) % TWO64 == 0
  {
    ((x - MIN64) % TWO64 + MIN64) as int64
  }

  /** Wrap hits `y` exactly when `x` and `y` are congruent modulo 2^64. */
  lemma WrapIff(x: int, y: int64)
    ensures Wrap(x) == y <==> (x - y as int) % TWO64 == 0
  {
    var r := (x - MIN64) % TWO64;
    var q := (x - MIN64) / TWO64;
    assert x - MIN64 == q * TWO64 + r;
    if (x - y as int) % TWO64 == 0 {
      var q2 := (x - y as int) / TWO64;
      assert x - y as int == q2 * TWO64;
      assert y as int - MIN64 == (q - q2) * TWO64 + r;
    }
  }

  /** Subtracting and adding under wrap-around are inverse: the complement
      `t - b` (wrapped) is `a` exactly when `a + b` (wrapped) is `t`. */
  lemma WrapSubAdd(a: int64, b: int64, t: int64)
    ensures Wrap(t as int - b as int) == a <==> Wrap(a as int + b as int) == t
  {
    WrapIff(t as int - b as int, a);
    WrapIff(a as int + b as int, t);
    var z := t as int - b as int - a as int;
    if z % TWO64 == 0 {
      var k := z / TWO64;
      assert -z == -k * TWO64;
    }
    if (-z) % TWO64 == 0 {
      var k := (-z) / TWO64;
      assert z == -k * TWO64;
    }
  }

  /** The 64-bit two's-complement pattern of a Go `int`, read as an unsigned number. */
  function Bits(x: int64): (u: nat)
    ensures u < TWO64
    ensures Wrap(u) == x
  {
    WrapIff(if x < 0 then x as int + TWO64 else x as int, x);
    if x < 0 then x as int + TWO64 else x as int
  }

  /** Bitwise exclusive or of two non-negative integers, one bit at a time
      from the least significant end. */
  function Xor(a: nat, b: nat): nat
    decreases a + b
  {
    if a == 0 && b == 0 then 0 else 2 * Xor(a / 2, b / 2) + (a + b) % 2
  }

  /** The defining recurrence holds for every pair, zero included. */
  lemma XorSplit(a: nat, b: nat)
    ensures Xor(a, b) == 2 * Xor(a / 2, b / 2) + (a + b) % 2
    ensures Xor(a, b) / 2 == Xor(a / 2, b / 2) && Xor(a, b) % 2 == (a + b) % 2
  {
  }

  lemma {:induction false} XorZero(a: nat)
    ensures Xor(a, 0) == a && Xor(0, a) == a
    decreases a
  {
    if a != 0 {
      XorZero(a / 2);
    }
  }

  lemma {:induction false} XorSelf(a: nat)
    ensures Xor(a, a) == 0
    decreases a
  {
    if a != 0 {
      XorSelf(a / 2);
    }
  }

  lemma {:induction false} XorComm(a: nat, b: nat)
    ensures Xor(a, b) == Xor(b, a)
    decreases a + b
  {
    if a != 0 || b != 0 {
      XorComm(a / 2, b / 2);
    }
  }

  lemma {:induction false} XorAssoc(a: nat, b: nat, c: nat)
    ensures Xor(Xor(a, b), c) == Xor(a, Xor(b, c))
    decreases a + b + c
  {
    if a != 0 || b != 0 || c != 0 {
      var x, y := Xor(a, b), Xor(b, c);
      XorSplit(a, b);
      XorSplit(b, c);
      XorSplit(x, c);
      XorSplit(a, y);
      XorAssoc(a / 2, b / 2, c / 2);
      var bit := (x + c) % 2;
      ParityAssoc(a, b, c, x, y);
      calc {
        Xor(x, c);
        2 * Xor(x / 2, c / 2) + bit;
        2 * Xor(Xor(a / 2, b / 2), c / 2) + bit;
        2 * Xor(a / 2, Xor(b / 2, c / 2)) + bit;
        2 * Xor(a / 2, y / 2) + bit;
        Xor(a, y);
      }
    }
  }

  lemma ParityAssoc(a: nat, b: nat, c: nat, x: nat, y: nat)
    requires x % 2 == (a + b) % 2 && y % 2 == (b + c) % 2
    ensures (x + c) % 2 == (a + y) % 2
  {
    assert x - (a + b) == 2 * ((x - (a + b)) / 2);
    assert y - (b + c) == 2 * ((y - (b + c)) / 2);
  }

  /** Exclusive or never sets a bit above the operands' width. */
  lemma {:induction false} XorBound(a: nat, b: nat, k: nat)
    requires a < Pow2(k) && b < Pow2(k)
    ensures Xor(a, b) < Pow2(k)
  {
    if a != 0 || b != 0 {
      XorBound(a / 2, b / 2, k - 1);
    }
  }

  function Pow2(k: nat): (p: nat)
    ensures p >= 1
  {
    if k == 0 then 1 else 2 * Pow2(k - 1)
  }

  lemma {:induction false} Pow2Sum(a: nat, b: nat)
    ensures Pow2(a + b) == Pow2(a) * Pow2(b)
  {
    if a > 0 {
      Pow2Sum(a - 1, b);
    }
  }

  lemma Pow2At16()
    ensures Pow2(16) == 0x1_0000
  {
    assert Pow2(4) == 16;
    Pow2Sum(4, 4);
    Pow2Sum(8, 8);
  }

  lemma Pow2At32()
    ensures Pow2(32) == 0x1_0000_0000
  {
    Pow2At16();
    Pow2Sum(16, 16);
  }

  /** 2^64, the number of Go `int` values. */
  lemma Pow2At64()
    ensures Pow2(64) == TWO64
  {
    Pow2At32();
    Pow2Sum(32, 32);
  }

  /** Go's `a ^ b` on `int`: exclusive or of the two bit patterns. */
  function XorInt(a: int64, b: int64): (r: int64)
    ensures Bits(r) == Xor(Bits(a), Bits(b))
  {
    Pow2At64();
    XorBound(Bits(a), Bits(b), 64);
    Wrap(Xor(Bits(a), Bits(b)))
  }

  /** The byte string Go stores for an ASCII string literal. */
  function Ascii(s: string): (r: seq<byte>)
    requires forall i :: 0 <= i < |s| ==> s[i] as int < 128
    ensures |r| == |s| && forall i :: 0 <= i < |s| ==> r[i] as int == s[i] as int
  {
    seq(|s|, i requires 0 <= i < |s| => s[i] as int as byte)
  }
}
