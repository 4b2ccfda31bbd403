/** Bits of natural numbers: the bitwise operators, single bits, and powers of two. */
module Bits {

  function Pow2(n: nat): (p: nat)
    ensures p > 0
  {
    if n == 0 then 1 else 2 * Pow2(n - 1)
  }

  /** Bit `k` of `x`, the least significant bit being bit 0. */
  function Bit(x: nat, k: nat): (b: nat)
    ensures b < 2
  {
    if k == 0 then x % 2 else Bit(x / 2, k - 1)
  }

  /** Bitwise and, defined bit by bit. */
  function And(x: nat, y: nat): (r: nat)
    ensures r <= x
  {
    if x == 0 || y == 0 then 0
    else 2 * And(x / 2, y / 2) + if x % 2 == 1 && y % 2 == 1 then 1 else 0
  }

  /** Bitwise or, defined bit by bit. */
  function Or(x: nat, y: nat): nat {
    if x == 0 then y else if y == 0 then x
    else 2 * Or(x / 2, y / 2) + if x % 2 == 1 || y % 2 == 1 then 1 else 0
  }

  lemma {:induction false} ZeroBit(k: nat)
    ensures Bit(0, k) == 0
  {
    if k > 0 { ZeroBit(k - 1); }
  }

  lemma {:induction false} AndBit(x: nat, y: nat, k: nat)
    ensures Bit(And(x, y), k) == if Bit(x, k) == 1 && Bit(y, k) == 1 then 1 else 0
  {
    if x == 0 || y == 0 {
      ZeroBit(k);
    } else if k > 0 {
      assert And(x, y) / 2 == And(x / 2, y / 2);
      AndBit(x / 2, y / 2, k - 1);
    }
  }

  lemma {:induction false} OrBit(x: nat, y: nat, k: nat)
    ensures Bit(Or(x, y), k) == if Bit(x, k) == 1 || Bit(y, k) == 1 then 1 else 0
  {
    if x == 0 || y == 0 {
      ZeroBit(k);
    } else if k > 0 {
      assert Or(x, y) / 2 == Or(x / 2, y / 2);
      OrBit(x / 2, y / 2, k - 1);
    }
  }

  lemma {:induction false} OrBelow(x: nat, y: nat, n: nat)
    requires x < Pow2(n) && y < Pow2(n)
    ensures Or(x, y) < Pow2(n)
  {
    if x != 0 && y != 0 { OrBelow(x / 2, y / 2, n - 1); }
  }

  /** Numbers of `n` bits are equal when their bits are. */
  lemma {:induction false} SameBits(x: nat, y: nat, n: nat)
    requires x < Pow2(n) && y < Pow2(n)
    requires forall k :: 0 <= k < n ==> Bit(x, k) == Bit(y, k)
    ensures x == y
  {
    if n > 0 {
      assert Bit(x, 0) == Bit(y, 0);
      forall k | 0 <= k < n - 1 ensures Bit(x / 2, k) == Bit(y / 2, k) { assert Bit(x, k + 1) == Bit(y, k + 1); }
      SameBits(x / 2, y / 2, n - 1);
    }
  }

  lemma {:induction false} Pow2Monotone(k: nat, n: nat)
    requires k <= n
    ensures Pow2(k) <= Pow2(n)
  {
    if k < n { Pow2Monotone(k, n - 1); }
  }

  lemma Twice(a: nat, b: nat)
    ensures 2 * (a * b) == (2 * a) * b
  {}

  lemma {:induction false} Pow2Add(a: nat, b: nat)
    ensures Pow2(a + b) == Pow2(a) * Pow2(b)
  {
    if a > 0 {
      Pow2Add(a - 1, b);
      Twice(Pow2(a - 1), Pow2(b));
    }
  }

  /** The number with bits `k..n` set. */
  function HighMask(n: nat, k: nat): (m: nat)
    requires k <= n
    ensures m < Pow2(n)
  {
    Pow2Monotone(k, n);
    Pow2(n) - Pow2(k)
  }

  lemma {:induction false} HighMaskBit(n: nat, k: nat, j: nat)
    requires k <= n && j < n
    ensures Bit(HighMask(n, k), j) == if j >= k then 1 else 0
  {
    if k == 0 {
      if j > 0 {
        assert HighMask(n, 0) / 2 == HighMask(n - 1, 0);
        HighMaskBit(n - 1, 0, j - 1);
      }
    } else if j > 0 {
      assert HighMask(n, k) / 2 == HighMask(n - 1, k - 1);
      HighMaskBit(n - 1, k - 1, j - 1);
    }
  }

  lemma {:induction false} AndAll(x: nat, n: nat)
    requires x < Pow2(n)
    ensures And(x, HighMask(n, 0)) == x
  {
    if x != 0 {
      var m := HighMask(n, 0);
      assert m / 2 == HighMask(n - 1, 0) && m % 2 == 1;
      AndAll(x / 2, n - 1);
    }
  }

  /** Keeping the bits from `k` on takes away the remainder modulo 2^k. */
  lemma {:induction false} AndHighMask(x: nat, n: nat, k: nat)
    requires k <= n && x < Pow2(n)
    ensures And(x, HighMask(n, k)) == x - x % Pow2(k)
  {
    if k == 0 {
      AndAll(x, n);
    } else {
      var m, p := HighMask(n, k), Pow2(k - 1);
      assert m / 2 == HighMask(n - 1, k - 1) && m % 2 == 0;
      AndHighMask(x / 2, n - 1, k - 1);
      ModHalf(x, p);
      assert And(x, m) == 2 * And(x / 2, m / 2);
    }
  }

  lemma ModHalf(x: nat, p: nat)
    requires p > 0
    ensures x % (2 * p) == 2 * ((x / 2) % p) + x % 2
  {
    var h := x / 2;
    var q, r := h / p, h % p;
    assert h == p * q + r;
    assert x == (2 * p) * q + (2 * r + x % 2) by { assert (2 * p) * q == 2 * (p * q); }
    ModUnique(x, 2 * p, q, 2 * r + x % 2);
  }

  /** Halving before dividing by a power of two. */
  lemma DivHalf(x: nat, p: nat)
    requires p > 0
    ensures (x / 2) / p == x / (2 * p)
  {
    var h := x / 2;
    var q, r := h / p, h % p;
    assert h == p * q + r;
    assert x == (2 * p) * q + (2 * r + x % 2) by { assert (2 * p) * q == 2 * (p * q); }
    ModUnique(x, 2 * p, q, 2 * r + x % 2);
  }

  /** Single bits are digits in base 2. */
  lemma {:induction false} BitIs(x: nat, k: nat)
    ensures Pow2(0) == 1 && Pow2(k + 1) == 2 * Pow2(k)
    ensures Bit(x, k) == x / Pow2(k) % 2
  {
    if k > 0 {
      BitIs(x / 2, k - 1);
      DivHalf(x, Pow2(k - 1));
    }
  }

  lemma ModUnique(x: int, m: nat, q: int, r: nat)
    requires r < m && x == m * q + r
    ensures x % m == r && x / m == q
  {
    var d := x / m - q;
    assert x == m * (x / m) + x % m;
    assert m * d == r - x % m by { assert m * d == m * (x / m) - m * q; }
    MulSpread(m, d);
  }

  lemma MulSpread(m: nat, k: int)
    ensures k >= 1 ==> m * k >= m
    ensures k <= -1 ==> m * k <= -(m as int)
  {}

  lemma MulLe(a: nat, b: nat, p: nat)
    requires a <= b
    ensures a * p <= b * p
  {}

  lemma {:induction false} Pow2Bit(k: nat, j: nat)
    ensures Bit(Pow2(k), j) == if j == k then 1 else 0
  {
    if k == 0 {
      if j > 0 { ZeroBit(j - 1); }
    } else if j > 0 {
      assert Pow2(k) / 2 == Pow2(k - 1);
      Pow2Bit(k - 1, j - 1);
    }
  }

  /** All of `n` bits but bit `k`. */
  function AllBut(n: nat, k: nat): nat
    requires k < n
  {
    Pow2Monotone(k + 1, n);
    Pow2(n) - 1 - Pow2(k)
  }

  lemma {:induction false} AllButBit(n: nat, k: nat, j: nat)
    requires k < n && j < n
    ensures Bit(AllBut(n, k), j) == if j == k then 0 else 1
  {
    if k == 0 {
      if j > 0 {
        assert AllBut(n, 0) / 2 == HighMask(n - 1, 0);
        HighMaskBit(n - 1, 0, j - 1);
      }
    } else if j > 0 {
      assert AllBut(n, k) / 2 == AllBut(n - 1, k - 1);
      AllButBit(n - 1, k - 1, j - 1);
    }
  }
}
