/** Bitwise operators on natural numbers, and what the masks used with them come to. */
module Bits {
  function Pow2(n: nat): (p: nat)
    ensures p >= 1
  {
    if n == 0 then 1 else 2 * Pow2(n - 1)
  }

  /** Bitwise and. */
  function And(x: nat, y: nat): nat {
    if x == 0 || y == 0 then 0
    else 2 * And(x / 2, y / 2) + (if x % 2 == 1 && y % 2 == 1 then 1 else 0)
  }

  /** Bitwise or. */
  function Or(x: nat, y: nat): nat
    decreases x + y
  {
    if x == 0 && y == 0 then 0
    else 2 * Or(x / 2, y / 2) + (if x % 2 == 1 || y % 2 == 1 then 1 else 0)
  }

  function Bit(x: int, n: nat): int {
    (x / Pow2(n)) % 2
  }

  lemma {:induction false} Pow2Add(m: nat, n: nat)
    ensures Pow2(m + n) == Pow2(m) * Pow2(n)
  {
    if m > 0 {
      Pow2Add(m - 1, n);
      assert Pow2(m - 1 + n) * 2 == (2 * Pow2(m - 1)) * Pow2(n);
    }
  }

  lemma Pow2Split(n: nat, k: nat)
    requires k <= n
    ensures Pow2(n) == Pow2(k) * Pow2(n - k)
  {
    Pow2Add(k, n - k);
  }

  /** Division with remainder is unique. */
  lemma DivModUnique(x: int, d: nat, q: int, r: int)
    requires d > 0 && x == q * d + r && 0 <= r < d
    ensures x / d == q && x % d == r
  {
    var e := q - x / d;
    assert e * d == x % d - r;
    Spread(e, d);
  }

  lemma Spread(e: int, d: nat)
    ensures e >= 1 ==> e * d >= d
    ensures e <= -1 ==> e * d + d <= 0
  {
  }

  /** Halving a quotient by a power of two. */
  lemma HalveQuotient(x: int, n: nat)
    ensures x / Pow2(n) == 2 * (x / Pow2(n + 1)) + Bit(x, n)
    ensures x % Pow2(n + 1) == x % Pow2(n) + Pow2(n) * Bit(x, n)
  {
    var p := Pow2(n);
    var q, r := x / p, x % p;
    var h, b := q / 2, q % 2;
    assert x == h * (2 * p) + (b * p + r) by {
      assert q * p == (2 * h + b) * p;
      assert (2 * h + b) * p == h * (2 * p) + b * p;
    }
    assert b * p == 0 || b * p == p;
    DivModUnique(x, 2 * p, h, b * p + r);
  }

  lemma DivDiv2(x: int, n: nat)
    ensures (x / 2) / Pow2(n) == x / Pow2(n + 1)
    ensures x % Pow2(n + 1) == 2 * ((x / 2) % Pow2(n)) + x % 2
  {
    var p := Pow2(n);
    var h := x / 2;
    var q, r := h / p, h % p;
    assert x == q * (2 * p) + (2 * r + x % 2) by {
      assert h == q * p + r;
      assert 2 * (q * p) == q * (2 * p);
    }
    DivModUnique(x, 2 * p, q, 2 * r + x % 2);
  }

  // ----- Masks -----

  lemma {:induction false} AndLowMask(x: nat, n: nat)
    ensures And(x, Pow2(n) - 1) == x % Pow2(n)
  {
    if n > 0 {
      AndLowMask(x / 2, n - 1);
      DivDiv2(x, n - 1);
      assert (Pow2(n) - 1) / 2 == Pow2(n - 1) - 1 && (Pow2(n) - 1) % 2 == 1;
      if x == 0 { DivModUnique(0, Pow2(n), 0, 0); }
    }
  }

  /** A mask with the bits from `k` up to `m` keeps all but the lowest `k` bits of a number below 2^m. */
  lemma {:induction false} AndHighMask(x: nat, k: nat, m: nat)
    requires k <= m && x < Pow2(m)
    ensures Pow2(k) <= Pow2(m)
    ensures And(x, Pow2(m) - Pow2(k)) == x - x % Pow2(k)
  {
    hide And;
    if k == 0 {
      AndLowMask(x, m);
      DivModUnique(x, Pow2(m), 0, x);
      DivModUnique(x, 1, x, 0);
    } else {
      AndHighMask(x / 2, k - 1, m - 1);
      AndEven(x, Pow2(m - 1) - Pow2(k - 1));
      DivDiv2(x, k - 1);
    }
  }

  lemma {:induction false} OrDisjoint(a: nat, n: nat, y: nat)
    requires a % Pow2(n) == 0 && y < Pow2(n)
    ensures Or(a, y) == a + y
    decreases n
  {
    if n == 0 {
      OrZero(a);
    } else {
      DivDiv2(a, n - 1);
      OrDisjoint(a / 2, n - 1, y / 2);
    }
  }

  lemma {:induction false} OrZero(a: nat)
    ensures Or(a, 0) == a
  {
    if a > 0 { OrZero(a / 2); }
  }

  lemma {:induction false} AndBit(x: nat, n: nat)
    ensures And(x, Pow2(n)) == if Bit(x, n) == 1 then Pow2(n) else 0
  {
    hide And;
    if n == 0 {
      AndOdd(x, 0);
      AndZero(x / 2);
      DivModUnique(x, 1, x, 0);
    } else {
      AndBit(x / 2, n - 1);
      HalfBit(x, n);
      AndEven(x, Pow2(n - 1));
    }
  }

  lemma HalfBit(x: int, n: nat)
    requires n > 0
    ensures Bit(x / 2, n - 1) == Bit(x, n)
  {
    DivDiv2(x, n - 1);
  }

  lemma {:induction false} OrBit(x: nat, n: nat)
    ensures Or(x, Pow2(n)) == if Bit(x, n) == 1 then x else x + Pow2(n)
  {
    if n == 0 {
      OrZero(x / 2);
    } else {
      OrBit(x / 2, n - 1);
      HalfBit(x, n);
      OrEven(x, Pow2(n - 1));
    }
  }

  lemma OrEven(x: nat, y: nat)
    requires y > 0
    ensures Or(x, 2 * y) == 2 * Or(x / 2, y) + x % 2
  {
  }

  lemma AndZero(x: nat)
    ensures And(x, 0) == 0
  {
  }

  lemma AndOdd(x: nat, y: nat)
    ensures And(x, 2 * y + 1) == 2 * And(x / 2, y) + x % 2
  {
    if x == 0 { assert And(0, y) == 0; }
    if y == 0 { assert And(x / 2, 0) == 0; }
  }

  /** Clearing bit `n`: a mask with every bit below 2^w but that one. */
  lemma {:induction false} AndNotBit(x: nat, n: nat, w: nat)
    requires n < w && x < Pow2(w)
    ensures Pow2(n) < Pow2(w)
    ensures And(x, Pow2(w) - 1 - Pow2(n)) == if Bit(x, n) == 1 then x - Pow2(n) else x
  {
    hide And;
    if n == 0 {
      AndEven(x, Pow2(w - 1) - 1);
      AndLowMask(x / 2, w - 1);
      DivModUnique(x / 2, Pow2(w - 1), 0, x / 2);
      DivModUnique(x, 1, x, 0);
    } else {
      AndNotBit(x / 2, n - 1, w - 1);
      HalfBit(x, n);
      AndOdd(x, Pow2(w - 1) - 1 - Pow2(n - 1));
    }
  }

  lemma AndEven(x: nat, y: nat)
    ensures And(x, 2 * y) == 2 * And(x / 2, y)
  {
    if x == 0 { assert And(0, y) == 0; }
    if y == 0 { assert And(x / 2, 0) == 0; }
  }
}
