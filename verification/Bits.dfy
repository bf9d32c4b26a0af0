/** Bitwise operations on unsigned numbers, and what masks and shifts make of them. */
module Bits {
  import opened Words

  function PowerOfTwo(k: nat): (p: nat)
    ensures p > 0
  {
    if k == 0 then 1 else 2 * PowerOfTwo(k - 1)
  }

  /** Bitwise and. */
  function BitAnd(a: nat, b: nat): nat {
    if a == 0 || b == 0 then 0 else 2 * BitAnd(a / 2, b / 2) + (if a % 2 == 1 && b % 2 == 1 then 1 else 0)
  }

  /** Bitwise or. */
  function BitOr(a: nat, b: nat): nat
    decreases a + b
  {
    if a == 0 then b else if b == 0 then a
    else (if a % 2 == 1 || b % 2 == 1 then 1 else 0) + 2 * BitOr(a / 2, b / 2)
  }

  lemma Powers()
    ensures PowerOfTwo(8) == 0x100 && PowerOfTwo(9) == 0x200
    ensures PowerOfTwo(16) == 0x1_0000 && PowerOfTwo(24) == 0x100_0000
  {
    assert PowerOfTwo(3) == 8 && PowerOfTwo(6) == 64 && PowerOfTwo(12) == 0x1000 by {
      assert PowerOfTwo(8) == 0x100 && PowerOfTwo(10) == 0x400;
    }
    assert PowerOfTwo(14) == 0x4000 && PowerOfTwo(18) == 0x4_0000;
    assert PowerOfTwo(20) == 0x10_0000 && PowerOfTwo(22) == 0x40_0000;
  }

  /** Masking with a power of two less one is the remainder. */
  lemma {:induction false} MaskIsRemainder(a: nat, k: nat)
    ensures BitAnd(a, PowerOfTwo(k) - 1) == a % PowerOfTwo(k)
  {
    if k > 0 {
      var p := PowerOfTwo(k - 1);
      assert (2 * p - 1) / 2 == p - 1;
      MaskIsRemainder(a / 2, k - 1);
      HalfRemainder(a, p);
    }
  }

  lemma HalfRemainder(a: nat, p: nat)
    requires p > 0
    ensures a % (2 * p) == 2 * ((a / 2) % p) + a % 2 && a / (2 * p) == a / 2 / p
  {
    var q, r := (a / 2) / p, (a / 2) % p;
    assert a / 2 == p * q + r;
    assert a == 2 * (a / 2) + a % 2;
    assert 2 * (p * q) == (2 * p) * q;
    DivUnique(a, 2 * p, q, 2 * r + a % 2);
  }

  /** The number without its low `k` bits. */
  function ShiftDown(a: nat, k: nat): nat {
    if k == 0 then a else ShiftDown(a / 2, k - 1)
  }

  lemma {:induction false} ShiftTwice(a: nat, j: nat, k: nat)
    ensures ShiftDown(a, j + k) == ShiftDown(ShiftDown(a, j), k)
  {
    if j > 0 {
      ShiftTwice(a / 2, j - 1, k);
    }
  }

  lemma ShiftByBytes(a: nat)
    ensures ShiftDown(a, 8) == a / 0x100 && ShiftDown(a, 16) == a / 0x1_0000
  {
    ShiftByFour(a);
    ShiftByFour(a / 16);
    ShiftByFour(a / 0x100);
    ShiftByFour(a / 0x1000);
    ShiftTwice(a, 4, 4);
    ShiftTwice(a / 0x100, 4, 4);
    ShiftTwice(a, 8, 8);
  }

  lemma ShiftByFour(a: nat)
    ensures ShiftDown(a, 4) == a / 16
  {
    ShiftByTwo(a);
    ShiftByTwo(a / 4);
    ShiftTwice(a, 2, 2);
  }

  lemma ShiftByTwo(a: nat)
    ensures ShiftDown(a, 2) == a / 4
  {
    assert ShiftDown(a / 2, 1) == ShiftDown(a / 2 / 2, 0);
  }

  /** A mask that stands `k` bits up picks the bits that a shift by `k` brings down to it. */
  lemma {:induction false} MaskShifted(a: nat, m: nat, k: nat)
    ensures BitAnd(a, m * PowerOfTwo(k)) == BitAnd(ShiftDown(a, k), m) * PowerOfTwo(k)
  {
    if k > 0 {
      var p := PowerOfTwo(k - 1);
      MaskShifted(a / 2, m, k - 1);
      Doubled(m, p);
      EvenMask(a, m * p);
      Doubled(BitAnd(ShiftDown(a, k), m), p);
    }
  }

  lemma Doubled(x: nat, p: nat)
    ensures x * (2 * p) == 2 * (x * p)
  {
  }

  lemma EvenMask(a: nat, x: nat)
    ensures BitAnd(a, 2 * x) == 2 * BitAnd(a / 2, x)
  {
  }

  /** Numbers without a common bit: their or is their sum. */
  lemma {:induction false} OrApart(a: nat, b: nat, k: nat)
    requires b < PowerOfTwo(k)
    ensures BitOr(a * PowerOfTwo(k), b) == a * PowerOfTwo(k) + b
    decreases k
  {
    if k == 0 {
    } else if a > 0 && b > 0 {
      var p := PowerOfTwo(k - 1);
      assert a * PowerOfTwo(k) == 2 * (a * p);
      MulAtLeast(p, a);
      OrApart(a, b / 2, k - 1);
    } else {
      assert a == 0 ==> a * PowerOfTwo(k) == 0;
    }
  }

  lemma OrOfTwo(a: nat, b: nat)
    requires b < 256
    ensures BitOr(a * 0x100, b) == a * 0x100 + b
  {
    Powers();
    OrApart(a, b, 8);
  }

  /** Four bytes shifted to their places and or-ed are the number they spell. */
  lemma OrOfBytes(a: nat, b: nat, c: nat, d: nat)
    requires a < 256 && b < 256 && c < 256 && d < 256
    ensures BitOr(BitOr(BitOr(a * 0x100_0000, b * 0x1_0000), c * 0x100), d)
         == a * 0x100_0000 + b * 0x1_0000 + c * 0x100 + d
  {
    Powers();
    OrApart(a, b * 0x1_0000, 24);
    OrApart(a * 256 + b, c * 256, 16);
    OrApart((a * 256 + b) * 256 + c, d, 8);
  }
}
