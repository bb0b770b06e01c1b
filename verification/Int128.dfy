/** The class of signed 128-bit integers: every operation against arithmetic modulo 2^128. */
module SignedInt128 {
  import opened CStrings
  import opened Bits
  import opened Words128
  import opened Numerals

  const U32: int := 0x1_0000_0000

  type UInt32 = n: int | 0 <= n < 0x1_0000_0000

  /** `n` as a 32-bit unsigned integer. */
  function ToU32(n: int): UInt32 {
    n % U32
  }

  class Int128 {
    var lo: U64
    var hi: I64

    ghost function W(): Words
      reads this
    {
      Words(lo, hi)
    }

    /** The number the object stands for. */
    ghost function V(): int
      reads this
    {
      Val(W())
    }

    constructor Pair(low: U64, high: I64)
      ensures W() == Words(low, high)
    {
      lo, hi := low, high;
    }

    constructor OfUnsigned(n: U64)
      ensures V() == n
    {
      lo, hi := n, 0;
    }

    constructor Copy(other: Int128)
      ensures W() == other.W()
    {
      lo, hi := other.lo, other.hi;
    }

    method Assign(other: Int128)
      modifies this
      ensures W() == old(other.W())
    {
      lo, hi := other.lo, other.hi;
    }

    /** The test that the program writes as `!x`. */
    predicate IsZero()
      reads this
    {
      !(hi != 0 || lo != 0)
    }

    predicate IsNegative()
      reads this
    {
      Less(Words(lo, hi), Words(0, 0))
    }

    method Negate() returns (r: Int128)
      ensures fresh(r) && r.V() == Wrap(-V())
    {
      if lo == 0 {
        r := new Int128.Pair(0, ToI64(0 - hi));
        ValIs(r.W(), -V(), 0 - hi);
      } else {
        r := new Int128.Pair(ToU64(0 - lo), 0 - hi - 1);
      }
    }

    /** `b` may be the object itself. */
    method AddAssign(b: Int128)
      modifies this
      ensures V() == Wrap(old(V()) + old(b.V()))
    {
      hide Val, Wrap, ToU64, ToI64;
      Carry(W(), b.W());
      var oldLo := lo;
      lo := ToU64(lo + b.lo);
      hi := ToI64(hi + b.hi);
      if lo < oldLo {
        hi := ToI64(hi + 1);
      }
    }

    method SubAssign(b: Int128)
      modifies this
      ensures V() == Wrap(old(V()) - old(b.V()))
    {
      WrapSum(-b.V(), V());
      var minus := b.Negate();
      AddAssign(minus);
    }

    method ShlAssign(n: nat)
      modifies this
      ensures V() == Wrap(old(V()) * Pow2(n))
    {
      hide Pow2, And, Or, Wrap, Val, ToI64, ToU64, Not64, Shl, Shr;
      if n >= 128 {
        ShiftLeftOut(W(), n);
        lo, hi := 0, 0;
        return;
      }
      if n >= 64 {
        ShiftLeftLong(W(), n);
        hi := ToI64(Shl(lo, n - 64));
        lo := 0;
        return;
      }
      if n != 0 {
        ShiftLeftShort(W(), n);
        hi := ToI64(Shl(hi, n));
        var mask := Not64(Pow2(64 - n) - 1);
        hi := ToI64(Or(ToU64(hi), Shr(And(lo, mask), 64 - n)));
        lo := ToU64(Shl(lo, n));
      } else {
        PowZero();
        WrapInRange(V());
      }
    }

    method ShrAssign(n: nat)
      modifies this
      ensures V() == old(V()) / Pow2(n)
    {
      hide Pow2, And, Or, Wrap, Val, ToI64, ToU64, Not64, Shl, Shr;
      if n >= 128 {
        ShiftRightOut(W(), n);
        hi := if hi < 0 then -1 else 0;
        lo := ToU64(hi);
        return;
      }
      if n >= 64 {
        ShiftRightLong(W(), n);
        lo := ToU64(Shr(hi, n - 64));
        hi := if hi < 0 then -1 else 0;
        return;
      }
      if n != 0 {
        ShiftRightShort(W(), n);
        var mask := Pow2(n) - 1;
        lo := Or(Shr(lo, n), ToU64(Shl(And(ToU64(hi), mask), 64 - n)));
        hi := Shr(hi, n);
      } else {
        PowZero();
      }
    }

    /** Bit `n` of the two's complement form, which goes on for ever to the left. */
    method GetBit(n: nat) returns (on: bool)
      ensures on <==> Bit(V(), n) == 1
    {
      hide Pow2, And;
      BitOfWord(W(), n);
      if n >= 128 {
        return hi < 0;
      }
      if n < 64 {
        AndBit(lo, n);
        BitIsBit(lo, n);
        on := And(lo, Pow2(n)) != 0;
      } else {
        AndBit(ToU64(hi), n - 64);
        BitIsBit(ToU64(hi), n - 64);
        on := And(ToU64(hi), Pow2(n - 64)) != 0;
      }
    }

    method SetBit(n: nat, on: bool)
      modifies this
      ensures n >= 128 ==> V() == old(V())
      ensures n < 128 && (Bit(old(V()), n) == 1) == on ==> V() == old(V())
      ensures n < 128 && Bit(old(V()), n) != 1 && on ==> V() == Wrap(old(V()) + Pow2(n))
      ensures n < 128 && Bit(old(V()), n) == 1 && !on ==> V() == Wrap(old(V()) - Pow2(n))
    {
      hide Pow2, And, Or, Bit;
      if n >= 128 {
        return;
      }
      if n < 64 { LowBit(W(), n); } else { HighBit(W(), n); }
      if on {
        if n < 64 { lo := Or(lo, Pow2(n)); } else { hi := ToI64(Or(ToU64(hi), Pow2(n - 64))); }
      } else {
        if n < 64 { lo := And(lo, Not64(Pow2(n))); } else { hi := ToI64(And(ToU64(hi), Not64(Pow2(n - 64)))); }
      }
      WrapInRange(V());
    }

    /** Multiplication by shifting and adding. `b` may be the object itself. */
    method MulAssign(b: Int128)
      modifies this
      ensures V() == Wrap(old(V()) * old(b.V()))
    {
      hide Val, Wrap, Pow2;
      if b.IsZero() {
        ZeroWords(b.W());
        lo, hi := 0, 0;
        return;
      }
      if b.lo == 1 && b.hi == 0 {
        OneWords(b.W(), V());
        return;
      }
      ghost var x, y := V(), b.V();
      var a := new Int128.Copy(this);
      var t := new Int128.Copy(b);
      lo, hi := 0, 0;
      ProductStart(x, y);
      for i := 0 to 128
        invariant a.V() == x && t.V() == y / Pow2(i)
        invariant V() == Wrap(x * (y % Pow2(i)))
      {
        ProductStep(t.W(), x, y, i);
        if And(t.lo, 1) != 0 {
          var shifted := new Int128.Copy(a);
          shifted.ShlAssign(i);
          AddAssign(shifted);
        }
        t.ShrAssign(1);
      }
      ProductEnd(x, y);
    }

    predicate LessThan(other: Int128)
      reads this, other
    {
      Less(Words(lo, hi), Words(other.lo, other.hi))
    }

    /** The absolute value; -2^127 has none and stays as it is. */
    method Magnitude() returns (r: Int128)
      ensures fresh(r) && r.V() == Size(V())
    {
      hide Val, Wrap, Less;
      LessThanPositive(W(), Words(0, 0));
      SizeIs(V());
      if IsNegative() {
        r := Negate();
      } else {
        r := new Int128.Copy(this);
      }
    }

    /** One bit shifted in from the right. */
    method PushBit(on: bool)
      requires 0 <= V() && 2 * V() + 1 < H128
      modifies this
      ensures V() == 2 * old(V()) + (if on then 1 else 0)
    {
      hide Val, Wrap, Or, Pow2;
      Pow2Of8();
      WrapInRange(V() * 2);
      ShlAssign(1);
      if on {
        SetLowest(W());
        lo := Or(lo, 1);
      }
    }

    /** `ds` taken out of the remainder, and bit `b` of the quotient set for it. */
    method TakeOut(ds: Int128, q: Int128, b: nat)
      requires q != this && ds != this && ds != q && b < 128
      requires 0 <= ds.V() <= V()
      requires 0 <= q.V() && q.V() + Pow2(b) < H128 && Bit(q.V(), b) == 0
      modifies this, q
      ensures V() == old(V()) - ds.V() && q.V() == old(q.V()) + Pow2(b)
    {
      hide Val, Wrap, Pow2, Bit;
      WrapInRange(V() - ds.V());
      WrapInRange(q.V() + Pow2(b));
      SubAssign(ds);
      q.SetBit(b, true);
    }

    /** The two loops of long division, on positive numbers. */
    static method LongDivision(dd: Int128, ds: Int128) returns (q: Int128, r: Int128)
      requires 0 < ds.V() <= dd.V()
      ensures fresh(q) && fresh(r) && q != r
      ensures q.V() >= 0 && 0 <= r.V() < ds.V()
      ensures dd.V() == q.V() * ds.V() + r.V()
    {
      hide Val, Wrap, Less, Pow2, Bit, BroughtDown, Dividing, ToU32;
      r := new Int128.OfUnsigned(0);
      q := new Int128.OfUnsigned(0);
      var b: UInt32 := 127;
      ghost var D, S, k := dd.V(), ds.V(), 128;
      NothingBroughtDown(D, S);
      CounterAt(k);
      while r.LessThan(ds)
        invariant 0 <= k <= 128 && b == ToU32(k - 1) && r.V() >= 0
        invariant BroughtDown(D, S, k, r.V())
        decreases k
        modifies r
      {
        LessThanPositive(r.W(), ds.W());
        BringDown(D, S, k, r.V());
        CounterAt(k);
        var on := dd.GetBit(b);
        b := ToU32(b - 1);
        r.PushBit(on);
        k := k - 1;
      }
      LessThanPositive(r.W(), ds.W());
      b := ToU32(b + 1);
      StartDividing(D, S, k, r.V());
      CounterAt(k);
      while true
        invariant Dividing(D, S, b, q.V(), r.V()) && r.V() >= 0
        decreases b, r.V()
        modifies r, q
      {
        LessThanPositive(r.W(), ds.W());
        if r.LessThan(ds) {
          if b == 0 {
            break;
          }
          b := b - 1;
          NextPlace(D, S, b, q.V(), r.V());
          var on := dd.GetBit(b);
          r.PushBit(on);
        } else {
          Subtract(D, S, b, q.V(), r.V());
          r.TakeOut(ds, q, b);
        }
      }
      LessThanPositive(r.W(), ds.W());
      AllDivided(D, S, q.V(), r.V());
    }

    /**
     * Division. With the divisor -2^127 the second loop would never end (`DivisorMinNeverEnds`).
     * `remainder` may be the object itself or the divisor.
     */
    method Div(divisor: Int128, remainder: Int128) returns (q: Int128)
      requires divisor.V() != 0 && divisor.V() != MIN
      modifies remainder
      ensures fresh(q)
      ensures old(V()) != MIN ==> Divided(old(V()), old(divisor.V()), q.V(), remainder.V())
      ensures old(V()) == MIN ==> q.V() == 0 && remainder.V() == MIN
    {
      hide Val, Wrap, Less, Pow2, Bit, Size, Divided, BroughtDown, Dividing;
      ghost var n, d := V(), divisor.V();
      SignTests(W(), divisor.W());
      var negative, opposite := IsNegative(), divisor.IsNegative() != IsNegative();
      var ds := divisor.Magnitude();
      var dd := Magnitude();
      Sizes(n, d);
      LessThanPositive(dd.W(), ds.W());
      if dd.LessThan(ds) {
        remainder.Assign(this);
        q := new Int128.OfUnsigned(0);
        return;
      }
      var r: Int128;
      q, r := LongDivision(dd, ds);
      Signs(n, d, q.V(), r.V());
      if opposite {
        WrapInRange(-q.V());
        q := q.Negate();
      }
      if negative {
        WrapInRange(-r.V());
        r := r.Negate();
      }
      remainder.Assign(r);
    }

    /** The number in a radix of up to 37, written into a fixed buffer of 256 characters from its back. */
    method ToString(radix: UInt32) returns (text: string)
      ensures text == Printed(V(), radix)
    {
      hide Val, Wrap, Pow2, Digits, Less, Divided, DigitChar, Printing, Unsigned, UpToNul, ToU32, Printed;
      ghost var n := V();
      PrintedAtOnce(n, radix);
      ZeroWords(W());
      SignTests(W(), W());
      if IsZero() {
        return "0";
      }
      if radix < 2 || radix > 37 {
        return "(invalid radix)";
      }
      var sz := new char[256](_ => '\0');
      var r := new Int128.OfUnsigned(0);
      var ii := Magnitude();
      var i := 255;
      var aux := new Int128.OfUnsigned(radix);
      ghost var m := ii.V();
      NothingPrinted(n, radix);
      assert sz[255..255] == "";
      while !ii.IsZero() && i != 0
        invariant 0 < i <= 255 && sz[255] == '\0' && aux.V() == radix
        invariant Printing(m, ii.V(), radix, i, sz[i..255])
        decreases i
        modifies sz, r
      {
        ZeroWords(ii.W());
        ghost var x, tail := ii.V(), sz[i..255];
        RadixFits(radix);
        ii := ii.Div(aux, r);
        PrintDigit(m, x, radix, i, tail, ii.V(), r.W());
        var c := ToU32(r.lo);
        i := i - 1;
        WriteChar(sz, i, DigitChar(c));
      }
      ZeroWords(ii.W());
      AllPrinted(n, radix, i, sz[i..255]);
      if IsNegative() {
        i := i - 1;
        WriteChar(sz, i, '-');
      }
      text := StringAt(sz, i);
    }

    /** The C string that starts at place `i`. */
    static method StringAt(sz: array<char>, i: nat) returns (text: string)
      requires sz.Length == 256 && i <= 255 && sz[255] == '\0'
      ensures text == UpToNul(sz[i..255] + ['\0'])
    {
      assert sz[i..] == sz[i..255] + ['\0'];
      text := UpToNul(sz[i..]);
    }

    /** A character in front of those written. */
    static method WriteChar(sz: array<char>, i: nat, c: char)
      requires sz.Length == 256 && i < 255
      modifies sz
      ensures sz[i..255] == [c] + old(sz[i + 1..255]) && sz[255] == old(sz[255])
    {
      sz[i] := c;
    }

    /** Reads a numeral: decimal, or hexadecimal or octal after 0x or 0; it stops where no digit follows. */
    method Set(text: string)
      modifies this
      ensures V() == Parsed(text)
    {
      hide Val, Wrap, Reading;
      ZeroWords(W());
      WrapInRange(0);
      lo, hi := 0, 0;
      if At(text, 0) == '\0' {
        NothingRead(text);
        return;
      }
      var radix, i, minus := 10, 0, false;
      if At(text, i) == '-' {
        i := i + 1;
        minus := true;
      }
      if At(text, i) == '0' {
        radix := 8;
        i := i + 1;
        if At(text, i) == 'x' {
          radix := 16;
          i := i + 1;
        }
      }
      ghost var first, acc := i, 0;
      while i < |text|
        invariant first <= i <= |text|
        invariant V() == Wrap(acc) && acc >= 0
        invariant Reading(text, first, radix, 0) == Reading(text, i, radix, acc)
      {
        var n: UInt32;
        var c := text[i];
        if '0' <= c <= '9' && c as int < '0' as int + radix {
          n := c as int - '0' as int;
        } else if 'a' <= c && c as int <= 'a' as int + radix - 10 {
          n := c as int - 'a' as int + 10;
        } else if 'A' <= c && c as int <= 'A' as int + radix - 10 {
          n := c as int - 'A' as int + 10;
        } else {
          break;
        }
        ReadDigit(text, i, radix, acc, n);
        var factor := new Int128.OfUnsigned(radix);
        MulAssign(factor);
        var digit := new Int128.OfUnsigned(n);
        AddAssign(digit);
        acc := acc * radix + n;
        i := i + 1;
      }
      ReadingEnds(text, i, radix, acc);
      if minus {
        WrapNeg(acc);
        var zero := new Int128.OfUnsigned(0);
        zero.SubAssign(this);
        Assign(zero);
      }
    }
  }

  lemma PowZero()
    ensures Pow2(0) == 1
  {
  }

  lemma ZeroWords(w: Words)
    ensures Val(Words(0, 0)) == 0
    ensures (w.lo == 0 && w.hi == 0) <==> Val(w) == 0
    ensures forall x: int :: Wrap(x * 0) == 0
  {
  }

  lemma OneWords(w: Words, v: int)
    requires -H128 <= v < H128
    ensures (w.lo == 1 && w.hi == 0) <==> Val(w) == 1
    ensures Wrap(v * 1) == v
  {
  }

  /** The comparison is that of the numbers whenever the right-hand one is not negative. */
  lemma LessThanPositive(a: Words, b: Words)
    ensures Val(b) >= 0 ==> (Less(a, b) <==> Val(a) < Val(b))
  {
    LessIsOrder(a, b);
  }

  lemma SignTests(a: Words, b: Words)
    ensures Less(a, Words(0, 0)) <==> Val(a) < 0
    ensures Less(b, Words(0, 0)) <==> Val(b) < 0
  {
  }

  // ----- Multiplication -----

  lemma ProductStart(x: int, y: int)
    ensures y / Pow2(0) == y
    ensures Wrap(x * (y % Pow2(0))) == 0 == Val(Words(0, 0))
  {
    DivModUnique(y, 1, y, 0);
  }

  /** One round: the lowest bit of what is left of `y` decides whether `x` shifted by `i` is added. */
  lemma ProductStep(t: Words, x: int, y: int, i: nat)
    requires Val(t) == y / Pow2(i)
    ensures And(t.lo, 1) != 0 <==> Bit(y, i) == 1
    ensures Bit(y, i) == 1 ==> Wrap(Wrap(x * (y % Pow2(i))) + Wrap(x * Pow2(i))) == Wrap(x * (y % Pow2(i + 1)))
    ensures Bit(y, i) != 1 ==> Wrap(x * (y % Pow2(i))) == Wrap(x * (y % Pow2(i + 1)))
    ensures (y / Pow2(i)) / Pow2(1) == y / Pow2(i + 1)
  {
    hide Pow2, Wrap, And, Val;
    LowestBit(t);
    HalveQuotient(y, i);
    Pow2Of8();
    var p, r := Pow2(i), y % Pow2(i);
    if Bit(y, i) == 1 {
      assert x * (r + p) == x * r + x * p;
      WrapSum(x * r, Wrap(x * p));
      WrapSum(x * p, x * r);
    }
  }

  lemma LowestBit(t: Words)
    ensures And(t.lo, 1) != 0 <==> Val(t) % 2 == 1
  {
    PowZero();
    AndBit(t.lo, 0);
    DivModUnique(t.lo, 1, t.lo, 0);
  }

  lemma ProductEnd(x: int, y: int)
    ensures Wrap(x * (y % Pow2(128))) == Wrap(x * y)
  {
    hide Pow2;
    Pow2Words();
    var k, r := y / W128, y % W128;
    assert x * y == x * r + (x * k) * W128 by {
      assert x * (k * W128 + r) == x * r + (x * k) * W128;
    }
    var m := WrapLoses(x * r);
    WrapIs(x * y, m + x * k, Wrap(x * r));
  }

  // ----- Division -----

  /** The absolute value in 128 bits. */
  ghost function Size(v: int): int {
    if v == MIN then MIN else Abs(v)
  }

  ghost function Abs(v: int): nat {
    if v < 0 then -v else v
  }

  lemma SizeIs(v: int)
    requires -H128 <= v < H128
    ensures Val(Words(0, 0)) == 0
    ensures v < 0 ==> Wrap(-v) == Size(v)
    ensures v >= 0 ==> v == Size(v)
    ensures v != MIN ==> 0 <= Size(v) < H128
  {
  }

  /** Division as C has it: the quotient truncated, the remainder with the dividend's sign. */
  ghost predicate Divided(n: int, d: int, q: int, r: int) {
    n == q * d + r && Abs(r) < Abs(d) && (r == 0 || (r < 0 <==> n < 0))
  }

  /** That fixes both results. */
  lemma DividedUniquely(n: int, d: int, q: int, r: int, q': int, r': int)
    requires Divided(n, d, q, r) && Divided(n, d, q', r')
    ensures q == q' && r == r'
  {
    assert (q - q') * d == r' - r;
    var p: nat := Abs(d);
    Spread(q - q', p);
    assert Abs(r' - r) < p;
    assert (q - q') * d == (q - q') * p || (q - q') * d == -((q - q') * p);
  }

  lemma SetLowest(w: Words)
    requires Val(w) % 2 == 0
    ensures Or(w.lo, 1) < W64 && Val(Words(Or(w.lo, 1), w.hi)) == Val(w) + 1
  {
    PowZero();
    OrBit(w.lo, 0);
    DivModUnique(w.lo, 1, w.lo, 0);
  }

  lemma Sizes(n: int, d: int)
    requires -H128 <= n < H128 && -H128 < d < H128 && d != 0
    ensures n == MIN ==> Size(n) == MIN
    ensures n != MIN ==> 0 <= Size(n) < H128
    ensures 0 < Size(d) < H128
    ensures Size(n) < Size(d) && n != MIN ==> Divided(n, d, 0, n)
  {
  }

  lemma Distribute(a: int, b: int, c: int)
    ensures (a + b) * c == a * c + b * c
    ensures (2 * a) * c == 2 * (a * c) == a * (2 * c)
  {
  }

  lemma NonNegative(a: nat, b: nat)
    ensures a * b >= 0
  {
  }

  /** The first loop: the dividend `D` without its lowest `k` bits is in the remainder, and below twice the divisor. */
  ghost predicate BroughtDown(D: int, S: int, k: nat, r: int) {
    k <= 128 && 0 <= r < 2 * S && r == D / Pow2(k)
  }

  /** The unsigned counter is one behind `k`, and wraps round below 0. */
  lemma CounterAt(k: nat)
    requires k <= 128
    ensures ToU32(128 - 1) == 127
    ensures k > 0 ==> ToU32(k - 1) == k - 1 && ToU32(ToU32(k - 1) - 1) == ToU32(k - 2)
    ensures ToU32(ToU32(k - 1) + 1) == k
  {
  }

  lemma NothingBroughtDown(D: int, S: int)
    requires 0 < S <= D < H128
    ensures BroughtDown(D, S, 128, 0)
  {
    hide Pow2;
    Pow2Words();
    DivModUnique(D, Pow2(128), 0, D);
  }

  lemma BringDown(D: int, S: int, k: nat, r: int)
    requires 0 < S <= D < H128 && BroughtDown(D, S, k, r) && r < S
    ensures k > 0 && 2 * r + 1 < H128
    ensures BroughtDown(D, S, k - 1, 2 * r + (if Bit(D, k - 1) == 1 then 1 else 0))
  {
    hide Pow2, Bit;
    if k == 0 {
      PowZero();
    } else {
      HalveQuotient(D, k - 1);
      BitIsBit(D, k - 1);
      TowardZero(D, Pow2(k - 1));
    }
  }

  /**
   * The second loop: with the places below `b` still to be looked at, the quotient so far and the
   * remainder so far make up the upper bits of the dividend.
   */
  ghost predicate Dividing(D: int, S: int, b: nat, q: int, r: int) {
    b <= 126 && 0 <= r < 2 * S && 0 <= q && q % Pow2(b) == 0
    && D / Pow2(b) == (q / Pow2(b)) * S + r && (r >= S ==> Bit(q, b) == 0)
  }

  lemma StartDividing(D: int, S: int, k: nat, r: int)
    requires 0 < S <= D < H128 && BroughtDown(D, S, k, r) && r >= S
    ensures k <= 126 && Dividing(D, S, k, 0, r)
  {
    hide Pow2;
    DivModUnique(0, Pow2(k), 0, 0);
    if k >= 127 {
      Pow2Words();
      Pow2Split(k, 127);
      NotAtLeast(Pow2(k - 127), 1, H128);
      DivModUnique(D, Pow2(k), 0, D);
    }
  }

  lemma NextPlace(D: int, S: int, b: nat, q: int, r: int)
    requires 0 < S <= D < H128 && Dividing(D, S, b + 1, q, r) && r < S
    ensures 2 * r + 1 < H128
    ensures Dividing(D, S, b, q, 2 * r + (if Bit(D, b) == 1 then 1 else 0))
  {
    hide Pow2, Bit;
    var p := Pow2(b);
    Pow2Step(b);
    HalveQuotient(D, b);
    HalveQuotient(q, b);
    BitIsBit(D, b);
    BitIsBit(q, b);
    TowardZero(D, p);
    Remainder(q, p);
    NonNegativeQuotient(q, Pow2(b + 1));
    NonNegative(q / Pow2(b + 1), S);
    Distribute(q / Pow2(b + 1), 0, S);
  }

  lemma NonNegativeQuotient(q: nat, p: nat)
    requires p > 0
    ensures q / p >= 0
  {
  }

  lemma Remainder(x: int, p: nat)
    requires p > 0
    ensures x == (x / p) * p + x % p && 0 <= x % p < p
  {
  }

  lemma Subtract(D: int, S: int, b: nat, q: int, r: int)
    requires 0 < S <= D < H128 && Dividing(D, S, b, q, r) && r >= S
    ensures Bit(q, b) == 0 && 0 <= q && q + Pow2(b) < H128
    ensures Dividing(D, S, b, q + Pow2(b), r - S)
  {
    hide Pow2, Bit;
    var p, Q := Pow2(b), q / Pow2(b);
    Remainder(q, p);
    Remainder(D, p);
    Distribute(Q, 1, S);
    Distribute(Q, 1, p);
    DivModUnique(q + p, p, Q + 1, 0);
    NonNegativeQuotient(q, p);
    Grows(S, Q + 1);
    NextMultiple(Q, D / p, p);
  }

  lemma NextMultiple(q: int, h: int, p: nat)
    requires q < h
    ensures q * p + p <= h * p
  {
    assert (q + 1) * p <= h * p;
  }

  lemma AllDivided(D: int, S: int, q: int, r: int)
    requires Dividing(D, S, 0, q, r)
    ensures D == q * S + r && q >= 0
  {
    PowZero();
  }

  /** The signs put back. */
  lemma Signs(n: int, d: int, q: int, r: int)
    requires -H128 < n < H128 && -H128 < d < H128
    requires Size(n) == q * Size(d) + r && 0 <= r < Size(d)
    ensures Divided(n, d, if (d < 0) != (n < 0) then -q else q, if n < 0 then -r else r)
  {
    assert (-q) * d == -(q * d) && q * (-d) == -(q * d);
  }

  /**
   * Divided by -2^127, any number gets to the second loop with nothing brought down: it is not below the divisor,
   * so there is no early return, and neither is 0, so the first loop does no round.
   */
  lemma DivisorMinReachesLoop(n: int)
    requires -H128 <= n < H128
    ensures Size(MIN) == MIN && -H128 <= Size(n) < H128
    ensures !Less(WordsOf(Size(n)), WordsOf(Size(MIN)))
    ensures !Less(WordsOf(MinRounds(0)), WordsOf(Size(MIN)))
  {
    LessIsOrder(WordsOf(Size(n)), WordsOf(MIN));
  }

  /** A round of the second loop with the divisor -2^127: subtracting it from what is left. */
  function MinRound(r: int): int {
    Wrap(r + Wrap(-MIN))
  }

  function MinRounds(k: nat): int {
    if k == 0 then 0 else MinRound(MinRounds(k - 1))
  }

  /** There the remainder is never below the divisor, so no round is the last. */
  lemma {:induction false} DivisorMinNeverEnds(k: nat)
    ensures MinRounds(k) == (if k % 2 == 0 then 0 else MIN)
    ensures !Less(WordsOf(MinRounds(k)), WordsOf(MIN))
  {
    if k > 0 { DivisorMinNeverEnds(k - 1); }
  }

  /** The two words of a number. */
  function WordsOf(v: int): (w: Words)
    requires -H128 <= v < H128
    ensures Val(w) == v
  {
    Words(v % W64, v / W64)
  }

  // ----- Printing -----

  /** What the program prints. -2^127 has no absolute value, and only its low word is seen. */
  function Printed(v: int, radix: nat): string {
    if v == 0 then "0"
    else if radix < 2 || radix > 37 then "(invalid radix)"
    else if v == MIN then "-0"
    else Numeral(v, radix)
  }

  /** A C string: the characters before the terminating one. */
  function UpToNul(s: seq<char>): string {
    if s == [] || s[0] == '\0' then "" else [s[0]] + UpToNul(s[1..])
  }

  lemma {:induction false} BeforeNul(s: string)
    requires '\0' !in s
    ensures UpToNul(s + ['\0']) == s
  {
    if s != "" {
      BeforeNul(s[1..]);
      assert (s + ['\0'])[1..] == s[1..] + ['\0'];
    }
  }

  ghost function Unsigned(x: int, radix: nat): string
    requires 2 <= radix <= 37
  {
    if x == MIN then "0" else if x <= 0 then "" else Digits(x, radix)
  }

  /** From position `i` the buffer holds the end of the numeral; what is left of the number has the start. */
  ghost predicate Printing(m: int, x: int, radix: nat, i: nat, tail: string)
    requires 2 <= radix <= 37
  {
    128 <= i <= 255 && (x == MIN ==> i == 255) && (x == MIN || 0 <= x < Pow2(i - 128))
    && Unsigned(m, radix) == Unsigned(x, radix) + tail
  }

  lemma PrintedAtOnce(n: int, radix: nat)
    ensures n == 0 ==> Printed(n, radix) == "0"
    ensures n != 0 && (radix < 2 || radix > 37) ==> Printed(n, radix) == "(invalid radix)"
    ensures n == MIN && 2 <= radix <= 37 ==> Printed(n, radix) == "-0"
  {
  }

  lemma NothingPrinted(n: int, radix: nat)
    requires -H128 <= n < H128 && 2 <= radix <= 37
    ensures Printing(Size(n), Size(n), radix, 255, "")
  {
    hide Pow2;
    Pow2Words();
    assert Unsigned(Size(n), radix) + "" == Unsigned(Size(n), radix);
  }

  lemma RadixFits(radix: UInt32)
    requires radix >= 2
    ensures radix != MIN
  {
  }

  lemma PrintDigit(m: int, x: int, radix: nat, i: nat, tail: string, q: int, r: Words)
    requires 2 <= radix <= 37 && Printing(m, x, radix, i, tail) && x != 0
    requires x != MIN ==> Divided(x, radix, q, Val(r))
    requires x == MIN ==> q == 0 && Val(r) == MIN
    ensures i > 128 && ToU32(r.lo) < 37
    ensures Printing(m, q, radix, i - 1, [DigitChar(ToU32(r.lo))] + tail)
  {
    hide Pow2, Digits, Val, DigitChar;
    LowWord(r);
    if x == MIN {
      assert DigitChar(0) == '0' by { ZeroDigit(); }
      assert "" + (['0'] + tail) == "0" + tail;
    } else {
      FloorDivided(x, radix, q, Val(r));
      Shrunk(x, radix);
      LastDigit(x, radix);
      HalfTheRange(x, q, i);
      var c := DigitChar(x % radix);
      assert Unsigned(q, radix) + ([c] + tail) == (Unsigned(q, radix) + [c]) + tail;
    }
  }

  lemma ZeroDigit()
    ensures DigitChar(0) == '0'
  {
  }

  lemma LastDigit(x: nat, radix: nat)
    requires 2 <= radix <= 37 && x > 0
    ensures 0 <= x / radix && Digits(x, radix) == Digits(x / radix, radix) + [DigitChar(x % radix)]
    ensures x / radix == 0 ==> Digits(x / radix, radix) == ""
  {
    hide DigitChar;
    Shrunk(x, radix);
  }

  lemma HalfTheRange(x: nat, q: nat, i: nat)
    requires 128 <= i && 0 < x < Pow2(i - 128) && 2 * q <= x
    ensures i > 128 && q < Pow2(i - 1 - 128)
  {
  }

  lemma LowWord(r: Words)
    ensures Val(r) == MIN ==> r.lo == 0
    ensures 0 <= Val(r) < U32 ==> r.lo == Val(r) == ToU32(r.lo)
    ensures ToU32(0) == 0
  {
  }

  lemma FloorDivided(x: nat, d: nat, q: int, r: int)
    requires x > 0 && d > 0 && Divided(x, d, q, r)
    ensures q == x / d && r == x % d
  {
    DivModUnique(x, d, q, r);
  }

  lemma AllPrinted(n: int, radix: nat, i: nat, tail: string)
    requires -H128 <= n < H128 && n != 0 && 2 <= radix <= 37
    requires Printing(Size(n), 0, radix, i, tail)
    ensures 128 <= i
    ensures Printed(n, radix) == if n < 0 then "-" + tail else tail
    ensures UpToNul(Printed(n, radix) + ['\0']) == Printed(n, radix)
  {
    hide Digits, Pow2, UpToNul;
    assert "" + tail == tail;
    if n != MIN { NoNul(if n < 0 then -n else n, radix); }
    BeforeNul(Printed(n, radix));
  }

  // ----- Parsing -----

  /** What the parser makes of a string. */
  function Parsed(s: string): int {
    Wrap(Read(s))
  }

  lemma NothingRead(s: string)
    requires At(s, 0) == '\0'
    ensures Parsed(s) == 0 == Val(Words(0, 0)) == Wrap(0)
  {
  }

  lemma ReadDigit(s: string, i: nat, radix: nat, acc: nat, n: nat)
    requires i < |s| && DigitOf(s[i], radix) == n
    ensures Reading(s, i, radix, acc) == Reading(s, i + 1, radix, acc * radix + n)
    ensures Wrap(Wrap(Wrap(acc) * radix) + n) == Wrap(acc * radix + n)
    ensures acc * radix + n >= 0
  {
    hide Wrap, DigitOf;
    ReadOne(s, i, radix, acc);
    WrapProduct(acc, radix);
    WrapSum(acc * radix, n);
  }

  lemma ReadingEnds(s: string, i: nat, radix: nat, acc: nat)
    requires i <= |s| && (i == |s| || DigitOf(s[i], radix) < 0)
    ensures Reading(s, i, radix, acc) == acc
  {
  }

  /**
   * Printing and then parsing gives the number back, in decimal, and in hexadecimal or octal with the
   * prefix put in after any sign. It does so for every number but -2^127.
   */
  lemma PrintedIsParsed(v: int, prefix: string, radix: nat)
    requires -H128 <= v < H128 && PrefixOf(prefix, radix)
    ensures Parsed(AfterSign(Printed(v, radix), prefix)) == v <==> v != MIN
  {
    hide Read, Digits, AfterSign;
    if v == MIN {
      SignFirst("-", prefix, "0");
      ReadMinusZeros();
      assert "-" + "0" == "-0" && "-" + "" + "0" == "-0";
      assert "-" + "0" + "0" == "-00" && "-" + "0x" + "0" == "-0x0";
    } else {
      ReadNumeral(v, prefix, radix);
      WrapInRange(v);
    }
  }
}
