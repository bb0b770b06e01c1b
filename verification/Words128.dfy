/** A signed 128-bit integer as two machine words, and arithmetic modulo 2^128. */
module Words128 {
  import opened Bits

  const W64: int := 0x1_0000_0000_0000_0000
  const H64: int := 0x8000_0000_0000_0000
  const W128: int := 0x1_0000_0000_0000_0000_0000_0000_0000_0000
  const H128: int := 0x8000_0000_0000_0000_0000_0000_0000_0000

  type U64 = n: int | 0 <= n < 0x1_0000_0000_0000_0000
  type I64 = n: int | -0x8000_0000_0000_0000 <= n < 0x8000_0000_0000_0000

  /** Conversion to uint64_t. */
  function ToU64(n: int): U64 {
    n % W64
  }

  /** Conversion to int64_t, with wrap-around. */
  function ToI64(n: int): I64 {
    (n + H64) % W64 - H64
  }

  function Not64(u: U64): U64 {
    W64 - 1 - u
  }

  /** The low word and the high word, as the class keeps them. */
  datatype Words = Words(lo: U64, hi: I64)

  /** The number that two words stand for. */
  function Val(w: Words): (v: int)
    ensures -H128 <= v < H128
  {
    w.hi * W64 + w.lo
  }

  /** `v` brought into the range of a signed 128-bit integer. */
  function Wrap(v: int): (r: int)
    ensures -H128 <= r < H128
  {
    (v + H128) % W128 - H128
  }

  const MIN: int := -H128

  lemma WrapIs(v: int, k: int, r: int)
    requires v == r + k * W128 && -H128 <= r < H128
    ensures Wrap(v) == r
  {
  }

  /** What wrapping takes away is a multiple of 2^128. */
  lemma WrapLoses(v: int) returns (k: int)
    ensures v == Wrap(v) + k * W128
  {
    k := (v + H128) / W128;
  }

  lemma WrapInRange(v: int)
    requires -H128 <= v < H128
    ensures Wrap(v) == v
  {
  }

  lemma WrapSum(a: int, b: int)
    ensures Wrap(Wrap(a) + b) == Wrap(a + b)
  {
    var k := WrapLoses(a);
    var m := WrapLoses(a + b);
    WrapIs(Wrap(a) + b, m - k, Wrap(a + b));
  }

  lemma WrapProduct(a: int, b: int)
    ensures Wrap(Wrap(a) * b) == Wrap(a * b)
  {
    var k := WrapLoses(a);
    var m := WrapLoses(a * b);
    assert a * b == Wrap(a) * b + (k * b) * W128 by {
      assert a * b == (Wrap(a) + k * W128) * b;
    }
    WrapIs(Wrap(a) * b, m - k * b, Wrap(a * b));
  }

  lemma WrapNeg(a: int)
    ensures Wrap(-Wrap(a)) == Wrap(-a)
  {
    var k := WrapLoses(a);
    var m := WrapLoses(-a);
    WrapIs(-Wrap(a), m + k, Wrap(-a));
  }

  lemma ToI64Loses(n: int) returns (k: int)
    ensures n == ToI64(n) + k * W64
  {
    k := (n + H64) / W64;
  }

  lemma Pow2Of8()
    ensures Pow2(8) == 256 && Pow2(1) == 2
  {
  }

  lemma Pow2Words()
    ensures Pow2(64) == W64 && Pow2(63) == H64 && Pow2(128) == W128 && Pow2(127) == H128
  {
    hide Pow2;
    Pow2Of8();
    Pow2Add(8, 8);
    Pow2Add(16, 16);
    Pow2Add(32, 32);
    Pow2Add(64, 64);
    Pow2Add(1, 63);
    Pow2Add(1, 127);
  }

  /** A high and a low word that differ from `v` by whole multiples of their range stand for `v` modulo 2^128. */
  lemma ValIs(w: Words, v: int, h: int)
    requires v == h * W64 + w.lo && w.hi == ToI64(h)
    ensures Val(w) == Wrap(v)
  {
    var k := ToI64Loses(h);
    WrapIs(v, k, Val(w));
  }

  /** The carry out of the low word shows as a sum below one of its terms. */
  lemma Carry(a: Words, b: Words)
    ensures var lo := ToU64(a.lo + b.lo);
      var hi := ToI64(a.hi + b.hi);
      Val(Words(lo, if lo < a.lo then ToI64(hi + 1) else hi)) == Wrap(Val(a) + Val(b))
  {
    var h := a.hi + b.hi;
    var lo := ToU64(a.lo + b.lo);
    if lo < a.lo {
      var k := ToI64Loses(h);
      SameI64(ToI64(h) + 1, h + 1, k);
      ValIs(Words(lo, ToI64(h + 1)), Val(a) + Val(b), h + 1);
    } else {
      ValIs(Words(lo, ToI64(h)), Val(a) + Val(b), h);
    }
  }

  // ----- Shifts -----

  /** Shifting to the left before it is cut to a word. */
  function Shl(x: int, n: nat): (r: int)
    ensures x >= 0 ==> r >= 0
  {
    Grows(x, Pow2(n));
    x * Pow2(n)
  }

  /** Shifting to the right, of a word with or without sign. */
  function Shr(x: int, n: nat): (r: int)
    ensures x >= 0 ==> 0 <= r <= x
    ensures x < 0 ==> x <= r < 0
  {
    TowardZero(x, Pow2(n));
    x / Pow2(n)
  }

  /** Multiplying by `p` and taking the remainder modulo `p * d`. */
  lemma ShiftedOut(x: int, p: nat, d: nat)
    requires p > 0 && d > 0
    ensures p * d > 0 && (x * p) / (p * d) == x / d && (x * p) % (p * d) == (x % d) * p
    ensures 0 <= (x % d) * p <= p * d - p
  {
    var q, r := x / d, x % d;
    assert x == q * d + r;
    Regroup(q, d, r, p);
    RemainderBound(r, d, p);
    PositiveProduct(p, d);
    DivModUnique(x * p, p * d, q, r * p);
  }

  lemma PositiveProduct(p: nat, d: nat)
    requires p > 0 && d > 0
    ensures p * d > 0
  {
  }

  lemma Regroup(q: int, d: int, r: int, p: int)
    ensures (q * d + r) * p == q * (p * d) + r * p
  {
  }

  lemma RemainderBound(r: int, d: nat, p: nat)
    requires 0 <= r < d
    ensures 0 <= r * p <= p * d - p
  {
    assert r * p <= (d - 1) * p;
  }

  lemma QuotientBound(x: nat, p: nat, d: nat)
    requires p > 0 && d > 0 && x < p * d
    ensures 0 <= x / d < p
  {
    var t := x / d;
    assert t * d <= x;
    NotAtLeast(t, p, d);
  }

  lemma NotAtLeast(t: int, p: nat, d: nat)
    requires d > 0
    ensures t >= p ==> t * d >= p * d
  {
  }

  /** The bits that a left shift by `n` moves from the low word into the high one. */
  lemma LowSpill(lo: U64, n: nat)
    requires 0 < n < 64
    ensures 1 <= Pow2(64 - n) <= W64
    ensures 0 <= lo / Pow2(64 - n) == Shr(And(lo, Not64(Pow2(64 - n) - 1)), 64 - n) < Pow2(n)
    ensures Shl(lo, n) == (lo / Pow2(64 - n)) * W64 + ToU64(Shl(lo, n))
  {
    hide Pow2, And;
    Pow2Words();
    Pow2Split(64, n);
    AndHighMask(lo, 64 - n, 64);
    DropRemainder(lo, Pow2(64 - n));
    QuotientBound(lo, Pow2(n), Pow2(64 - n));
    ShiftedOut(lo, Pow2(n), Pow2(64 - n));
  }

  lemma DropRemainder(x: int, d: nat)
    requires d > 0
    ensures (x - x % d) / d == x / d
  {
    DivModUnique(x - x % d, d, x / d, 0);
  }

  /** Shifted-in bits go where the shift has left zeros. */
  lemma OrSpill(x: int, n: nat, t: nat)
    requires n < 64 && t < Pow2(n)
    ensures Or(ToU64(Shl(x, n)), t) == ToU64(Shl(x, n)) + t < W64
  {
    hide Pow2, Or;
    Pow2Words();
    Pow2Split(64, n);
    ShiftedOut(x, Pow2(n), Pow2(64 - n));
    DivModUnique((x % Pow2(64 - n)) * Pow2(n), Pow2(n), x % Pow2(64 - n), 0);
    OrDisjoint(ToU64(x * Pow2(n)), n, t);
  }

  /** `<<=` for 0 < n < 64: the high word shifted, with the low word's upper bits or-ed in. */
  lemma ShiftLeftShort(w: Words, n: nat)
    requires 0 < n < 64
    ensures 1 <= Pow2(64 - n) <= W64
    ensures var spill := Shr(And(w.lo, Not64(Pow2(64 - n) - 1)), 64 - n);
      Val(Words(ToU64(Shl(w.lo, n)), ToI64(Or(ToU64(ToI64(Shl(w.hi, n))), spill)))) == Wrap(Val(w) * Pow2(n))
  {
    hide *;
    LowSpill(w.lo, n);
    var t := w.lo / Pow2(64 - n);
    OrSpill(w.hi, n, t);
    ToU64OfToI64(Shl(w.hi, n));
    ShiftWithSpill(w, n, t);
  }

  lemma ShiftWithSpill(w: Words, n: nat, t: nat)
    requires Shl(w.lo, n) == t * W64 + ToU64(Shl(w.lo, n))
    ensures Val(Words(ToU64(Shl(w.lo, n)), ToI64(ToU64(Shl(w.hi, n)) + t))) == Wrap(Val(w) * Pow2(n))
  {
    hide Pow2, Wrap, ToI64;
    var p := Pow2(n);
    var k, h := (w.hi * p) / W64, w.hi * p + t;
    assert h == ToU64(w.hi * p) + t + k * W64;
    SameI64(ToU64(w.hi * p) + t, h, k);
    Expand(w.hi, w.lo, p);
    ValIs(Words(ToU64(w.lo * p), ToI64(h)), Val(w) * p, h);
  }

  lemma Expand(hi: int, lo: int, p: int)
    ensures (hi * W64 + lo) * p == (hi * p) * W64 + lo * p
  {
  }

  lemma ToU64OfToI64(n: int)
    ensures ToU64(ToI64(n)) == ToU64(n)
  {
  }

  lemma SameI64(a: int, b: int, k: int)
    requires b == a + k * W64
    ensures ToI64(a) == ToI64(b)
  {
  }

  /** `<<=` for 64 <= n < 128: the low word becomes the high one. */
  lemma ShiftLeftLong(w: Words, n: nat)
    requires 64 <= n < 128
    ensures Val(Words(0, ToI64(Shl(w.lo, n - 64)))) == Wrap(Val(w) * Pow2(n))
  {
    hide Pow2;
    Pow2Words();
    Pow2Split(n, 64);
    var p := Pow2(n - 64);
    LongShift(w.hi, w.lo, p);
    var r := Words(0, ToI64(w.lo * p));
    ValIs(r, (w.lo * p) * W64, w.lo * p);
    var k := WrapLoses((w.lo * p) * W64);
    WrapIs(Val(w) * Pow2(n), w.hi * p + k, Val(r));
  }

  lemma LongShift(hi: int, lo: int, p: int)
    ensures (hi * W64 + lo) * (W64 * p) == (lo * p) * W64 + (hi * p) * W128
  {
  }

  lemma ShiftLeftOut(w: Words, n: nat)
    requires n >= 128
    ensures Wrap(Val(w) * Pow2(n)) == 0 == Val(Words(0, 0))
  {
    hide Pow2;
    Pow2Words();
    Pow2Split(n, 128);
    var p := Pow2(n - 128);
    assert Val(w) * (W128 * p) == (Val(w) * p) * W128;
    WrapIs(Val(w) * Pow2(n), Val(w) * p, 0);
  }

  lemma DividesWord(x: int, p: nat, d: nat)
    requires p > 0 && p * d == W64
    ensures ToU64(x) % p == x % p
  {
    var k := x / W64;
    assert k * (p * d) == (k * d) * p by { Regroup(k, d, 0, p); }
    SameRemainder(x, ToU64(x), k * d, p);
  }

  lemma SameRemainder(x: int, y: int, k: int, p: nat)
    requires p > 0 && x == y + k * p
    ensures x % p == y % p && x / p == y / p + k
  {
    var q, r := y / p, y % p;
    assert (q + k) * p == q * p + k * p;
    DivModUnique(x, p, q + k, r);
  }

  lemma RegroupShift(h: int, s: int, t: int, r: int, p: int, d: int)
    ensures (h * p + s) * (p * d) + (t * p + r) == (h * (p * d) + s * d + t) * p + r
  {
    assert (h * p + s) * (p * d) == (h * (p * d) + s * d) * p by {
      assert (h * p) * (p * d) == (h * (p * d)) * p;
      assert s * (p * d) == (s * d) * p;
    }
  }

  /** The bits that a right shift by `n` moves from the high word into the low one. */
  lemma HighSpill(w: Words, n: nat)
    requires 0 < n < 64
    ensures var spill := ToU64(Shl(And(ToU64(w.hi), Pow2(n) - 1), 64 - n));
      0 <= Or(Shr(w.lo, n), spill) == (w.hi % Pow2(n)) * Pow2(64 - n) + Shr(w.lo, n) < W64
  {
    hide *;
    Pow2Words();
    Pow2Split(64, n);
    KeptBits(w.hi, n);
    JoinSpill(w.hi % Pow2(n), w.lo, n);
  }

  /** The mask keeps the lowest bits of the high word. */
  lemma KeptBits(hi: int, n: nat)
    requires 0 < n < 64
    ensures 0 <= hi % Pow2(n) == And(ToU64(hi), Pow2(n) - 1) < Pow2(n)
  {
    hide *;
    Pow2Words();
    Pow2Split(64, n);
    AndLowMask(ToU64(hi), n);
    DividesWord(hi, Pow2(n), Pow2(64 - n));
    RemainderIsNat(hi, Pow2(n));
  }

  lemma RemainderIsNat(h: int, p: nat)
    requires p > 0
    ensures 0 <= h % p < p
  {
  }

  lemma JoinSpill(s: nat, lo: U64, n: nat)
    requires n < 64 && s < Pow2(n)
    ensures Or(Shr(lo, n), ToU64(Shl(s, 64 - n))) == s * Pow2(64 - n) + Shr(lo, n) < W64
  {
    hide Or, Pow2, ToU64;
    Pow2Words();
    Pow2Split(64, n);
    OrLow(s, Shr(lo, n), Pow2(n), 64 - n) by {
      QuotientBound(lo, Pow2(64 - n), Pow2(n));
    }
  }

  lemma OrLow(s: nat, t: nat, p: nat, m: nat)
    requires s < p && t < Pow2(m) && Pow2(m) * p == W64
    ensures 0 <= s * Pow2(m) && Or(t, ToU64(s * Pow2(m))) == s * Pow2(m) + t < W64
  {
    hide Or, Pow2, ToU64;
    RemainderBound(s, p, Pow2(m));
    DivModUnique(s * Pow2(m), Pow2(m), s, 0);
    OrDisjoint(s * Pow2(m), m, t);
    OrSwap(s * Pow2(m), t);
    NoWrap(s * Pow2(m));
  }

  lemma NoWrap(x: nat)
    requires x < W64
    ensures ToU64(x) == x
  {
  }

  /** `>>=` for 0 < n < 64: the low word shifted, with the high word's lowest bits or-ed in. */
  lemma ShiftRightShort(w: Words, n: nat)
    requires 0 < n < 64
    ensures var lo := Or(Shr(w.lo, n), ToU64(Shl(And(ToU64(w.hi), Pow2(n) - 1), 64 - n)));
      0 <= lo < W64 && Val(Words(lo, Shr(w.hi, n))) == Val(w) / Pow2(n)
  {
    hide And, Or, Pow2, ToU64, Shl;
    Pow2Words();
    Pow2Split(64, n);
    HighSpill(w, n);
    ShiftedPair(w.hi, w.lo, Pow2(n), Pow2(64 - n));
  }

  lemma ShiftedPair(hi: int, lo: nat, p: nat, d: nat)
    requires p > 0 && p * d == W64
    ensures (hi * W64 + lo) / p == (hi / p) * W64 + (hi % p) * d + lo / p
  {
    RegroupShift(hi / p, hi % p, lo / p, lo % p, p, d);
    DivModUnique(hi * W64 + lo, p, (hi / p) * W64 + (hi % p) * d + lo / p, lo % p);
  }

  lemma TowardZero(h: int, p: nat)
    requires p > 0
    ensures h >= 0 ==> 0 <= h / p <= h
    ensures h < 0 ==> h <= h / p < 0
  {
    QuotientSign(h, h / p, h % p, p);
  }

  lemma QuotientSign(h: int, q: int, r: int, p: nat)
    requires h == q * p + r && 0 <= r < p
    ensures h >= 0 ==> 0 <= q <= h
    ensures h < 0 ==> h <= q < 0
  {
    Spread(q, p);
    Grows(q, p);
    Grows(q + 1, p);
    assert (q + 1) * p == q * p + p;
  }

  lemma Grows(q: int, p: nat)
    requires p > 0
    ensures q >= 0 ==> q * p >= q
    ensures q <= 0 ==> q * p <= q
  {
  }

  lemma {:induction false} OrSwap(x: nat, y: nat)
    ensures Or(x, y) == Or(y, x)
    decreases x + y
  {
    if x != 0 || y != 0 { OrSwap(x / 2, y / 2); }
  }

  lemma DropWord(w: Words, m: nat)
    ensures Val(w) / (W64 * Pow2(m)) == w.hi / Pow2(m)
  {
    hide Pow2;
    var p := Pow2(m);
    var q, r := w.hi / p, w.hi % p;
    RemainderBound(r, p, W64);
    Regroup(q, p, r, W64);
    DivModUnique(Val(w), W64 * p, q, r * W64 + w.lo);
  }

  /** `>>=` for 64 <= n < 128: the high word becomes the low one, and the sign fills the rest. */
  lemma ShiftRightLong(w: Words, n: nat)
    requires 64 <= n < 128
    ensures Val(Words(ToU64(Shr(w.hi, n - 64)), if w.hi < 0 then -1 else 0)) == Val(w) / Pow2(n)
  {
    hide Pow2, Val, ToU64;
    Pow2Words();
    Pow2Split(n, 64);
    DropWord(w, n - 64);
    SignExtended(Shr(w.hi, n - 64));
  }

  lemma SignExtended(v: I64)
    ensures Val(Words(ToU64(v), if v < 0 then -1 else 0)) == v
  {
  }

  lemma ShiftRightOut(w: Words, n: nat)
    requires n >= 128
    ensures Val(w) / Pow2(n) == if w.hi < 0 then -1 else 0
    ensures var sign: I64 := if w.hi < 0 then -1 else 0; Val(Words(ToU64(sign), sign)) == Val(w) / Pow2(n)
  {
    hide Pow2;
    Pow2Words();
    Pow2Split(n, 128);
    var p := Pow2(n);
    assert p >= W128 by { NotAtLeast(Pow2(n - 128), 1, W128); }
    if w.hi < 0 {
      DivModUnique(Val(w), p, -1, Val(w) + p);
    } else {
      DivModUnique(Val(w), p, 0, Val(w));
    }
  }

  // ----- Single bits -----

  lemma EvenMultiple(x: int, n: nat, m: nat, k: int)
    requires n < m
    ensures Bit(x + k * Pow2(m), n) == Bit(x, n)
  {
    hide Pow2;
    Pow2Split(m, n + 1);
    Pow2Step(n);
    var p, h := Pow2(n), Pow2(m - n - 1);
    MoveTwo(k, p, h);
    EvenQuotient(x, k * h, p);
  }

  lemma EvenQuotient(x: int, e: int, p: nat)
    requires p > 0
    ensures ((x + (2 * e) * p) / p) % 2 == (x / p) % 2
  {
    SameRemainder(x + (2 * e) * p, x, 2 * e, p);
  }

  lemma Pow2Step(n: nat)
    ensures Pow2(n + 1) == 2 * Pow2(n)
  {
  }

  lemma MoveTwo(k: int, p: int, h: int)
    ensures k * ((2 * p) * h) == (2 * (k * h)) * p
  {
  }

  /** Which bit of which word holds bit `n` of the number. */
  lemma BitOfWord(w: Words, n: nat)
    ensures n < 64 ==> Bit(Val(w), n) == Bit(w.lo, n)
    ensures 64 <= n < 128 ==> Bit(Val(w), n) == Bit(ToU64(w.hi), n - 64)
    ensures n >= 128 ==> Bit(Val(w), n) == if w.hi < 0 then 1 else 0
  {
    hide Pow2;
    Pow2Words();
    if n < 64 {
      EvenMultiple(w.lo, n, 64, w.hi);
    } else if n < 128 {
      Pow2Split(n, 64);
      DropWord(w, n - 64);
      var k := w.hi / W64;
      EvenMultiple(ToU64(w.hi), n - 64, 64, k);
    } else {
      ShiftRightOut(w, n);
    }
  }

  /** Setting or clearing bit `n`, one of the upper 64, in the high word. */
  lemma HighBit(w: Words, n: nat)
    requires 64 <= n < 128
    ensures var raised := Or(ToU64(w.hi), Pow2(n - 64));
      Val(Words(w.lo, ToI64(raised))) == if Bit(Val(w), n) == 1 then Val(w) else Wrap(Val(w) + Pow2(n))
    ensures 0 <= Pow2(n - 64) < W64
    ensures var cleared := And(ToU64(w.hi), Not64(Pow2(n - 64)));
      Val(Words(w.lo, ToI64(cleared))) == if Bit(Val(w), n) == 1 then Wrap(Val(w) - Pow2(n)) else Val(w)
  {
    hide Pow2, And, Or, Bit, Wrap, ToI64, ToU64;
    Pow2Words();
    Pow2Split(n, 64);
    BitOfWord(w, n);
    BitIsBit(ToU64(w.hi), n - 64);
    OrBit(ToU64(w.hi), n - 64);
    AndNotBit(ToU64(w.hi), n - 64, 64);
    HighSum(w, Pow2(n - 64));
    HighSum(w, 0 - Pow2(n - 64));
    HighSum(w, 0);
    WrapInRange(Val(w));
  }

  /** Adding to the high word adds that many times 2^64. */
  lemma HighSum(w: Words, p: int)
    ensures Val(Words(w.lo, ToI64(ToU64(w.hi) + p))) == Wrap(Val(w) + W64 * p)
  {
    SameI64(ToU64(w.hi) + p, w.hi + p, w.hi / W64);
    ValIs(Words(w.lo, ToI64(w.hi + p)), Val(w) + W64 * p, w.hi + p);
  }

  lemma BitIsBit(x: int, n: nat)
    ensures Bit(x, n) == 0 || Bit(x, n) == 1
  {
  }

  lemma LowBit(w: Words, n: nat)
    requires n < 64
    ensures 0 <= Pow2(n) < W64
    ensures Or(w.lo, Pow2(n)) < W64
    ensures Val(Words(Or(w.lo, Pow2(n)), w.hi)) == if Bit(Val(w), n) == 1 then Val(w) else Val(w) + Pow2(n)
    ensures And(w.lo, Not64(Pow2(n))) < W64
    ensures Val(Words(And(w.lo, Not64(Pow2(n))), w.hi)) == if Bit(Val(w), n) == 1 then Val(w) - Pow2(n) else Val(w)
  {
    hide Pow2, And, Or;
    Pow2Words();
    BitOfWord(w, n);
    OrBit(w.lo, n);
    AndNotBit(w.lo, n, 64);
    if Bit(w.lo, n) == 0 { Fits(w.lo, n, 64); }
  }

  /** Setting a bit that is clear stays below the next power of two. */
  lemma {:induction false} Fits(x: nat, n: nat, w: nat)
    requires n < w && x < Pow2(w) && Bit(x, n) == 0
    ensures x + Pow2(n) < Pow2(w)
  {
    if n == 0 {
      DivModUnique(x, 1, x, 0);
    } else {
      HalfBit(x, n);
      Fits(x / 2, n - 1, w - 1);
    }
  }

  // ----- Comparison -----

  /** The comparison: two numbers with the same negative high word have their low words compared as signed. */
  function Less(a: Words, b: Words): bool {
    if a.hi == b.hi then
      if a.hi < 0 then ToI64(a.lo) < ToI64(b.lo) else a.lo < b.lo
    else
      a.hi < b.hi
  }

  /** It orders the numbers, except two negative ones whose low words lie on different sides of 2^63. */
  lemma LessIsOrder(a: Words, b: Words)
    ensures (Less(a, b) <==> Val(a) < Val(b)) <==> !(a.hi == b.hi < 0 && (a.lo < H64) != (b.lo < H64))
  {
  }
}
