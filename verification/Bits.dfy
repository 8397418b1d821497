/** Bitwise operators on unbounded two's-complement integers. */
module Bits {
  import opened Arithmetic

  type byte = b: int | 0 <= b < 256

  function Magnitude(x: int): nat {
    if x >= 0 then x else -1 - x
  }

  function BitOr(x: int, y: int): int
    decreases Magnitude(x) + Magnitude(y)
  {
    if Magnitude(x) == 0 && Magnitude(y) == 0 then (if x == -1 || y == -1 then -1 else 0)
    else 2 * BitOr(x / 2, y / 2) + if x % 2 == 1 || y % 2 == 1 then 1 else 0
  }

  function BitAnd(x: int, y: int): int
    decreases Magnitude(x) + Magnitude(y)
  {
    if Magnitude(x) == 0 && Magnitude(y) == 0 then (if x == -1 && y == -1 then -1 else 0)
    else 2 * BitAnd(x / 2, y / 2) + if x % 2 == 1 && y % 2 == 1 then 1 else 0
  }

  function BitNot(x: int): int {
    -1 - x
  }

  function Pow2(k: nat): (p: nat)
    ensures p > 0
  {
    if k == 0 then 1 else 2 * Pow2(k - 1)
  }

  function ShiftLeft(x: int, k: nat): int {
    x * Pow2(k)
  }

  function ShiftRight(x: int, k: nat): int {
    x / Pow2(k)
  }

  /** The k lowest bits of x as a number. */
  function Low(x: int, k: nat): (r: nat)
    decreases k
  {
    if k == 0 then 0 else 2 * Low(x / 2, k - 1) + x % 2
  }

  /** Bit k of x. */
  function Bit(x: int, k: nat): (r: nat)
    ensures r <= 1
    decreases k
  {
    if k == 0 then x % 2 else Bit(x / 2, k - 1)
  }

  lemma HalvesOfMultiple(x: int, p: nat)
    requires p > 0
    ensures x % (2 * p) == 2 * ((x / 2) % p) + x % 2 && x / (2 * p) == (x / 2) / p
  {
    var h := x / 2;
    var q, m := h / p, h % p;
    assert h == p * q + m;
    assert (2 * p) * q == 2 * (p * q);
    DivModUnique(x, 2 * p, q, 2 * m + x % 2);
  }

  /** The lowest bits are the remainder modulo the power of two. */
  lemma {:induction false} LowIsMod(x: int, k: nat)
    ensures Low(x, k) == x % Pow2(k)
    decreases k
  {
    if k > 0 {
      LowIsMod(x / 2, k - 1);
      HalvesOfMultiple(x, Pow2(k - 1));
    }
  }

  lemma {:induction false} AndZero(x: int)
    ensures BitAnd(x, 0) == 0
    decreases Magnitude(x)
  {
    if Magnitude(x) > 0 {
      AndZero(x / 2);
    }
  }

  lemma {:induction false} OrMinusOne(x: int)
    ensures BitOr(x, -1) == -1
    decreases Magnitude(x)
  {
    if Magnitude(x) > 0 {
      OrMinusOne(x / 2);
    }
  }

  lemma {:induction false} ZeroOr(y: int)
    ensures BitOr(0, y) == y
    decreases Magnitude(y)
  {
    if Magnitude(y) > 0 {
      ZeroOr(y / 2);
    }
  }

  /** Masking with 2^k - 1 keeps the k lowest bits. */
  lemma {:induction false} AndLowMask(x: int, k: nat)
    ensures BitAnd(x, Pow2(k) - 1) == Low(x, k)
    decreases k
  {
    if k == 0 {
      AndZero(x);
    } else {
      AndLowMask(x / 2, k - 1);
      var m := Pow2(k) - 1;
      assert m / 2 == Pow2(k - 1) - 1 && m % 2 == 1;
    }
  }

  /** Masking with 2^k tests bit k. */
  lemma {:induction false} AndSingleBit(x: int, k: nat)
    ensures BitAnd(x, Pow2(k)) == if Bit(x, k) == 1 then Pow2(k) else 0
    decreases k
  {
    if k == 0 {
      AndZero(x / 2);
    } else {
      AndSingleBit(x / 2, k - 1);
      assert Pow2(k) / 2 == Pow2(k - 1) && Pow2(k) % 2 == 0;
    }
  }

  /** Setting every bit from k up. */
  lemma {:induction false} OrHighMask(x: int, k: nat)
    ensures BitOr(x, 0 - Pow2(k)) == Low(x, k) - Pow2(k)
    decreases k
  {
    if k == 0 {
      OrMinusOne(x);
    } else {
      OrHighMask(x / 2, k - 1);
      var y := 0 - Pow2(k);
      assert y / 2 == 0 - Pow2(k - 1) && y % 2 == 0;
    }
  }

  /** Or of numbers that share no bits is their sum. */
  lemma {:induction false} OrDisjoint(a: nat, b: nat, k: nat)
    requires a < Pow2(k)
    ensures BitOr(a, ShiftLeft(b, k)) == a + ShiftLeft(b, k)
    decreases k
  {
    if k == 0 {
      ZeroOr(b);
      assert ShiftLeft(b, 0) == b;
    } else {
      var s, h := ShiftLeft(b, k), ShiftLeft(b, k - 1);
      ShiftStep(b, k);
      OrDisjoint(a / 2, b, k - 1);
      OrStep(a, s);
    }
  }

  lemma ShiftStep(b: nat, k: nat)
    requires k > 0
    ensures ShiftLeft(b, k) == 2 * ShiftLeft(b, k - 1) >= 0
  {
    assert b * (2 * Pow2(k - 1)) == 2 * (b * Pow2(k - 1));
  }

  lemma OrStep(a: nat, s: nat)
    requires s % 2 == 0
    ensures BitOr(a, s) == 2 * BitOr(a / 2, s / 2) + a % 2
  {
    if a == 0 && s == 0 {
      ZeroOr(0);
    }
  }

  lemma Pow2Plus7(k: nat)
    ensures Pow2(k + 7) == 128 * Pow2(k)
  {
    assert Pow2(k + 1) == 2 * Pow2(k) && Pow2(k + 2) == 2 * Pow2(k + 1) && Pow2(k + 3) == 2 * Pow2(k + 2);
    assert Pow2(k + 4) == 2 * Pow2(k + 3) && Pow2(k + 5) == 2 * Pow2(k + 4);
    assert Pow2(k + 6) == 2 * Pow2(k + 5) && Pow2(k + 7) == 2 * Pow2(k + 6);
  }

  lemma Pow2Plus8(k: nat)
    ensures Pow2(k + 8) == 256 * Pow2(k)
  {
    Pow2Plus7(k);
  }

  lemma {:induction false} Pow2Monotone(j: nat, k: nat)
    requires j <= k
    ensures Pow2(j) <= Pow2(k)
  {
    if j < k {
      Pow2Monotone(j, k - 1);
    }
  }
}
