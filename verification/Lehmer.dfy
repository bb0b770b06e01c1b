/** The Lehmer random number generator of Sender.cc, its full period, and the uniform draws made from it. */
module Lehmer {
  const MULTIPLIER: nat := 16807
  const INVERSE: nat := 1407677000
  const MODULUS: nat := 0x7FFF_FFFF
  const PERIOD: nat := 0x7FFF_FFFE
  const LONG_LONG_MAX: nat := 0x7FFF_FFFF_FFFF_FFFF

  /** One draw. C++ `%` and Dafny `%` agree, since the product is never negative. */
  function Step(s: nat): nat {
    (MULTIPLIER * s) % MODULUS
  }

  function Unstep(s: nat): nat {
    (INVERSE * s) % MODULUS
  }

  /** The state after `k` draws from the seed 1. */
  function State(k: nat): nat {
    if k == 0 then 1 else Step(State(k - 1))
  }

  class Generator {
    var s_delayTime: int
    ghost var draws: nat

    ghost predicate Valid()
      reads this
    {
      s_delayTime == State(draws)
    }

    constructor ()
      ensures Valid() && draws == 0
    {
      s_delayTime, draws := 1, 0;
    }

    /** The next number: never 0, at most 2^31 - 2, and computed without overflowing a long long. */
    method GetLcgRandomNumber() returns (r: int)
      requires Valid()
      modifies this
      ensures Valid() && draws == old(draws) + 1 && r == State(draws)
      ensures 1 <= r <= PERIOD && MULTIPLIER * old(s_delayTime) <= LONG_LONG_MAX
    {
      StateInRange(draws);
      StateInRange(draws + 1);
      var temporalDelayTime := (MULTIPLIER * s_delayTime) % MODULUS;
      s_delayTime, draws := temporalDelayTime, draws + 1;
      r := temporalDelayTime;
    }

    /** A draw scaled to the open interval between `from` and `to`, in exact arithmetic. */
    method UniformDist(from: real, to: real) returns (x: real)
      requires Valid()
      modifies this
      ensures Valid() && draws == old(draws) + 1
      ensures x == from + (to - from) * State(draws) as real / MODULUS as real
      ensures from < to ==> from < x < to
    {
      var n := GetLcgRandomNumber();
      var uniform := (to - from) * n as real / MODULUS as real;
      ScaledInside(to - from, n);
      x := from + uniform;
    }
  }

  lemma ScaledInside(width: real, n: int)
    requires 1 <= n <= PERIOD
    ensures width > 0.0 ==> 0.0 < width * n as real / MODULUS as real < width
  {
    if width > 0.0 {
      assert width * n as real > 0.0;
      assert width * n as real < width * MODULUS as real;
    }
  }

  // ----- Modular arithmetic -----

  lemma ModUnique(a: int, q: int, r: nat)
    requires a == q * MODULUS + r && r < MODULUS
    ensures a % MODULUS == r
  {
  }

  lemma ModMul(a: nat, b: nat)
    ensures ((a % MODULUS) * b) % MODULUS == (a * b) % MODULUS
  {
    var q, r := a / MODULUS, a % MODULUS;
    var p, t := (r * b) / MODULUS, (r * b) % MODULUS;
    assert a * b == (q * b + p) * MODULUS + t by {
      assert a == q * MODULUS + r && r * b == p * MODULUS + t;
      assert a * b == q * MODULUS * b + r * b;
    }
    ModUnique(a * b, q * b + p, t);
  }

  lemma {:induction false} StateInRange(k: nat)
    ensures 1 <= State(k) <= PERIOD
  {
    if k > 0 {
      StateInRange(k - 1);
      UndoStep(State(k - 1));
    }
  }

  /** A draw can be undone, so no draw gives 0 and no two states are followed by the same one. */
  lemma UndoStep(s: nat)
    requires 1 <= s <= PERIOD
    ensures Unstep(Step(s)) == s && 1 <= Step(s) <= PERIOD
  {
    var t := MULTIPLIER * s;
    ModMul(t, INVERSE);
    assert t * INVERSE == (11017 * s) * MODULUS + s;
    ModUnique(t * INVERSE, 11017 * s, s);
  }

  lemma RedoStep(s: nat)
    requires 1 <= s <= PERIOD
    ensures Step(Unstep(s)) == s && 1 <= Unstep(s) <= PERIOD
  {
    var t := INVERSE * s;
    ModMul(t, MULTIPLIER);
    assert t * MULTIPLIER == (11017 * s) * MODULUS + s;
    ModUnique(t * MULTIPLIER, 11017 * s, s);
  }

  /** The step is a permutation of 1 to 2^31 - 2. */
  lemma StepIsPermutation(s: nat, t: nat)
    requires 1 <= s <= PERIOD && 1 <= t <= PERIOD
    ensures 1 <= Step(s) <= PERIOD
    ensures Step(s) == Step(t) ==> s == t
    ensures exists u: nat :: 1 <= u <= PERIOD && Step(u) == t
  {
    UndoStep(s);
    UndoStep(t);
    RedoStep(t);
  }

  // ----- The exponents at which the state returns to 1 -----

  lemma {:induction false} StateProduct(i: nat, j: nat)
    ensures State(i + j) == (State(i) * State(j)) % MODULUS
    decreases i
  {
    StateInRange(j);
    if i > 0 {
      StateProduct(i - 1, j);
      StepProduct(State(i - 1), State(j));
    }
  }

  lemma StepProduct(x: nat, y: nat)
    ensures Step((x * y) % MODULUS) == (Step(x) * y) % MODULUS
  {
    ModMul(x * y, MULTIPLIER);
    ModMul(MULTIPLIER * x, y);
    assert (x * y) * MULTIPLIER == (MULTIPLIER * x) * y;
  }

  lemma {:induction false} StateCancels(i: nat, j: nat)
    requires State(i + j) == State(i)
    ensures State(j) == 1
    decreases i
  {
    if i > 0 {
      StateInRange(i - 1 + j);
      StateInRange(i - 1);
      UndoStep(State(i - 1 + j));
      UndoStep(State(i - 1));
      StateCancels(i - 1, j);
    }
  }

  lemma {:induction false} MultipleReturns(d: nat, n: nat)
    requires State(d) == 1
    ensures State(n * d) == 1
    decreases n
  {
    if n > 0 {
      MultipleReturns(d, n - 1);
      assert n * d == (n - 1) * d + d;
      StateProduct((n - 1) * d, d);
    }
  }

  ghost predicate FirstReturn(d: nat) {
    d > 0 && State(d) == 1 && forall k: nat :: 0 < k < d ==> State(k) != 1
  }

  /** If `d` is the first return to 1, every return is at a multiple of `d`. */
  lemma ReturnIsMultiple(d: nat, n: nat, r: nat)
    requires FirstReturn(d) && r < d && State(n * d + r) == 1
    ensures r == 0
  {
    MultipleReturns(d, n);
    RemainderReturns(n * d, r);
  }

  lemma RemainderReturns(m: nat, r: nat)
    requires State(m) == 1 && State(m + r) == 1
    ensures State(r) == 1
  {
    StateCancels(m, r);
  }

  // ----- Powers, by repeated squaring -----

  /** From the states after `e` and `b` draws, the state after `2 * e + b`. */
  lemma Horner(e: nat, v: nat, b: nat, w: nat, q: nat, r: nat)
    requires State(e) == v && State(b) == w
    requires v * v * w == q * MODULUS + r && r < MODULUS
    ensures State(2 * e + b) == r
  {
    StateProduct(e, e);
    StateProduct(2 * e, b);
    ModMul(v * v, w);
    ModUnique(v * v * w, q, r);
  }

  lemma FirstDraw()
    ensures State(0) == 1 && State(1) == MULTIPLIER
  {
  }

  lemma PowerA()
    ensures State(331) == 555860589
  {
    FirstDraw();
    Horner(1, 16807, 0, 1, 0, 282475249);
    Horner(2, 282475249, 1, 16807, 624483740091, 1144108930);
    Horner(5, 1144108930, 0, 1, 609543753, 2007237709);
    Horner(10, 2007237709, 0, 1, 1876150827, 143542612);
    Horner(20, 143542612, 1, 16807, 161258280303, 530511967);
    Horner(41, 530511967, 0, 1, 131057085, 269220094);
    Horner(82, 269220094, 1, 16807, 567251009962, 60935238);
    Horner(165, 60935238, 1, 16807, 29060116977, 555860589);
  }

  lemma PowerB()
    ensures State(49981) == 560223525
  {
    PowerA();
    Horner(331, 555860589, 0, 1, 143880487, 1448530832);
    Horner(662, 1448530832, 0, 1, 977069871, 1305712687);
    Horner(1324, 1305712687, 331, 555860589, 441297295458597883, 1812642440);
    Horner(2979, 1812642440, 0, 1, 1530010540, 901514220);
    Horner(5958, 901514220, 331, 555860589, 210368727897313623, 441924519);
    Horner(12247, 441924519, 331, 555860589, 50551286626467695, 1540797964);
    Horner(24825, 1540797964, 331, 555860589, 614507814024325077, 560223525);
  }

  lemma PowerC()
    ensures State(1549411) == 942143378
  {
    PowerB();
    Horner(49981, 560223525, 49981, 560223525, 81875536754540475, 1650715800);
    Horner(149943, 1650715800, 49981, 560223525, 710846931190330653, 1940668509);
    Horner(349867, 1940668509, 49981, 560223525, 982503698289616264, 1390445717);
    Horner(749715, 1390445717, 49981, 560223525, 504358743152966101, 942143378);
  }

  lemma PowerD()
    ensures State(17043521) == 430777829
  {
    PowerC();
    Horner(1549411, 942143378, 0, 1, 413336858, 1451889758);
    Horner(3098822, 1451889758, 1549411, 942143378, 924814047476737769, 790745649);
    Horner(7747055, 790745649, 1549411, 942143378, 274322074545368467, 430777829);
  }

  lemma PowerE()
    ensures State(119304647) == 1074490442
  {
    PowerD();
    Horner(17043521, 430777829, 17043521, 430777829, 37224610674793273, 1568387158);
    Horner(51130563, 1568387158, 17043521, 430777829, 493435092882251862, 1074490442);
  }

  lemma WithoutTwo()
    ensures State(1073741823) == 2147483646
  {
    PowerE();
    Horner(119304647, 1074490442, 0, 1, 537619791, 473297587);
    Horner(238609294, 473297587, 0, 1, 104313067, 309107220);
    Horner(477218588, 309107220, 119304647, 1074490442, 47806944761228382, 2147483646);
  }

  lemma FullPower()
    ensures State(2147483646) == 1
  {
    WithoutTwo();
    Horner(1073741823, 2147483646, 0, 1, 2147483645, 1);
  }

  lemma WithoutThree()
    ensures State(715827882) == 634005911
  {
    PowerE();
    Horner(119304647, 1074490442, 119304647, 1074490442, 577667327096351408, 634005912);
    Horner(357913941, 634005912, 0, 1, 187178839, 634005911);
  }

  lemma WithoutSeven()
    ensures State(306783378) == 1600955193
  {
    PowerD();
    Horner(17043521, 430777829, 0, 1, 86412549, 2084867038);
    Horner(34087042, 2084867038, 0, 1, 2024076212, 587188280);
    Horner(68174084, 587188280, 17043521, 430777829, 69163702680796641, 394883873);
    Horner(153391689, 394883873, 0, 1, 72612088, 1600955193);
  }

  lemma WithoutEleven()
    ensures State(195225786) == 298192073
  {
    PowerC();
    Horner(1549411, 942143378, 1549411, 942143378, 389422584284998960, 1689239032);
    Horner(4648233, 1689239032, 1549411, 942143378, 1251899166160744109, 1461621549);
    Horner(10845877, 1461621549, 1549411, 942143378, 937253366782771439, 383438545);
    Horner(23241165, 383438545, 1549411, 942143378, 64502815339546182, 107324696);
    Horner(48031741, 107324696, 1549411, 942143378, 5053432494145618, 1819912402);
    Horner(97612893, 1819912402, 0, 1, 1542307973, 298192073);
  }

  lemma WithoutThirtyOnePartA()
    ensures State(1049601) == 1558415999
  {
    PowerB();
    Horner(49981, 560223525, 0, 1, 146147980, 871342565);
    Horner(99962, 871342565, 49981, 560223525, 198065728678929637, 755121986);
    Horner(249905, 755121986, 0, 1, 265524356, 1350377864);
    Horner(499810, 1350377864, 49981, 560223525, 475709798370085183, 1558415999);
  }

  lemma WithoutThirtyOne()
    ensures State(69273666) == 16384
  {
    PowerB();
    WithoutThirtyOnePartA();
    Horner(1049601, 1558415999, 49981, 560223525, 633575350735903477, 459482906);
    Horner(2149183, 459482906, 0, 1, 98312525, 1173426161);
    Horner(4298366, 1173426161, 49981, 560223525, 359205526012319179, 2028325712);
    Horner(8646713, 2028325712, 0, 1, 1915779521, 1355313857);
    Horner(17293426, 1355313857, 49981, 560223525, 479193847931809498, 2147483519);
    Horner(34636833, 2147483519, 0, 1, 2147483391, 16384);
  }

  lemma Without151PartA()
    ensures State(110885) == 1495792865
  {
    PowerA();
    Horner(331, 555860589, 0, 1, 143880487, 1448530832);
    Horner(662, 1448530832, 331, 555860589, 543114634326188291, 1033862659);
    Horner(1655, 1033862659, 0, 1, 497732310, 1366015711);
    Horner(3310, 1366015711, 0, 1, 868923460, 1854176901);
    Horner(6620, 1854176901, 331, 555860589, 889894147762308868, 387457193);
    Horner(13571, 387457193, 331, 555860589, 38858271070378579, 429260048);
    Horner(27473, 429260048, 331, 555860589, 47695450750483407, 902891727);
    Horner(55277, 902891727, 331, 555860589, 211012102750471828, 1495792865);
  }

  lemma Without151()
    ensures State(14221746) == 1013763951
  {
    Without151PartA();
    PowerA();
    Horner(110885, 1495792865, 331, 555860589, 579133826743747414, 995905667);
    Horner(222101, 995905667, 0, 1, 461855948, 1963032533);
    Horner(444202, 1963032533, 331, 555860589, 997449718698929546, 1648702159);
    Horner(888735, 1648702159, 0, 1, 1265769270, 891133591);
    Horner(1777470, 891133591, 331, 555860589, 205551971722237704, 948894021);
    Horner(3555271, 948894021, 331, 555860589, 233061983466864442, 597511775);
    Horner(7110873, 597511775, 0, 1, 166250542, 1013763951);
  }

  lemma Without331PartA()
    ensures State(395) == 1255820950
  {
    FirstDraw();
    Horner(1, 16807, 1, 16807, 2210, 1622650073);
    Horner(3, 1622650073, 0, 1, 1226083031, 470211272);
    Horner(6, 470211272, 0, 1, 102957077, 1115438165);
    Horner(12, 1115438165, 0, 1, 579376844, 1998097157);
    Horner(24, 1998097157, 1, 16807, 31245935967667, 585640194);
    Horner(49, 585640194, 0, 1, 159709917, 1807130337);
    Horner(98, 1807130337, 1, 16807, 25558731047603, 2043046042);
    Horner(197, 2043046042, 1, 16807, 32667555879834, 1255820950);
  }

  lemma Without331PartB()
    ensures State(101372) == 1315497955
  {
    Without331PartA();
    FirstDraw();
    Horner(395, 1255820950, 1, 16807, 12342859412665, 662128245);
    Horner(791, 662128245, 1, 16807, 3431188387615, 182048270);
    Horner(1583, 182048270, 1, 16807, 259378185083, 1868832599);
    Horner(3167, 1868832599, 1, 16807, 27333870776996, 1094535995);
    Horner(6335, 1094535995, 1, 16807, 9376061157219, 1508402482);
    Horner(12671, 1508402482, 1, 16807, 17807166169194, 1349594950);
    Horner(25343, 1349594950, 0, 1, 848158509, 924100177);
    Horner(50686, 924100177, 0, 1, 397656642, 1315497955);
  }

  lemma Without331()
    ensures State(6487866) == 759513457
  {
    Without331PartB();
    FirstDraw();
    Horner(101372, 1315497955, 1, 16807, 13543804905873, 880535344);
    Horner(202745, 880535344, 1, 16807, 6068116645175, 150479927);
    Horner(405491, 150479927, 1, 16807, 177221936759, 2134324430);
    Horner(810983, 2134324430, 0, 1, 2121245849, 500693597);
    Horner(1621966, 500693597, 1, 16807, 1962024426180, 642181603);
    Horner(3243933, 642181603, 0, 1, 192037416, 759513457);
  }

  // ----- The prime factors of the period -----

  predicate IsPrime(q: nat) {
    q > 1 && forall g :: 1 < g < q ==> q % g != 0
  }

  /** The least positive `g` with `k` dividing `g * m` divides every such number. */
  lemma LeastDivides(k: nat, m: nat, g: nat, a: nat)
    requires k > 0 && 0 < g && (g * m) % k == 0 && (a * m) % k == 0
    requires forall h: nat :: 0 < h < g ==> (h * m) % k != 0
    ensures a % g == 0
  {
    var n, r := a / g, a % g;
    var x, y := (a * m) / k, (g * m) / k;
    assert a * m == x * k && g * m == y * k;
    assert r * m == (x - n * y) * k by {
      assert r == a - n * g;
      assert r * m == a * m - n * (g * m);
    }
    MultipleMod(r * m, x - n * y, k);
  }

  lemma MultipleMod(a: int, c: int, k: nat)
    requires k > 0 && a == c * k
    ensures a % k == 0
  {
    MulSpread(c - a / k, k);
    assert a % k == (c - a / k) * k;
  }

  lemma MulSpread(d: int, k: nat)
    ensures d >= 1 ==> d * k >= k
    ensures d <= -1 ==> d * k <= 0 - k
  {
  }

  lemma LeastExists(k: nat, m: nat, a: nat) returns (g: nat)
    requires k > 0 && a > 0 && (a * m) % k == 0
    ensures 0 < g <= a && (g * m) % k == 0 && forall h: nat :: 0 < h < g ==> (h * m) % k != 0
    decreases a
  {
    if h: nat :| 0 < h < a && (h * m) % k == 0 {
      g := LeastExists(k, m, h);
    } else {
      g := a;
    }
  }

  /** Euclid's lemma: a number not divisible by the prime `q` divides `m` if it divides `q * m`. */
  lemma Euclid(k: nat, q: nat, m: nat)
    requires k > 0 && IsPrime(q) && k % q != 0 && (q * m) % k == 0
    ensures m % k == 0
  {
    var g := LeastExists(k, m, q);
    LeastDivides(k, m, g, q);
    MultipleMod(k * m, m, k);
    LeastDivides(k, m, g, k);
    assert g == 1 || g == q;
    assert g == 1;
  }

  /** `c` divides `PERIOD / q` if `c * k == PERIOD` and the prime factor `q` of the period divides `k`. */
  lemma NoReturnBelow(d: nat, k: nat, q: nat, e: nat)
    requires FirstReturn(d) && d * k == PERIOD && q > 0 && q * e == PERIOD && k % q == 0
    ensures State(e) == 1
  {
    var n := k / q;
    assert k == n * q;
    assert q * (d * n) == q * e by {
      assert d * k == d * (n * q);
      assert d * (n * q) == q * (d * n);
    }
    CancelFactor(q, d * n, e);
    MultipleReturns(d, n);
    assert n * d == d * n;
  }

  lemma CancelFactor(q: nat, a: nat, b: nat)
    requires q > 0 && q * a == q * b
    ensures a == b
  {
  }

  lemma SmallPrimes()
    ensures IsPrime(2) && IsPrime(3) && IsPrime(7) && IsPrime(11) && IsPrime(31)
  {
  }

  lemma Prime151()
    ensures IsPrime(151)
  {
  }

  lemma Prime331()
    ensures IsPrime(331)
  {
  }

  /** A divisor of the period that none of its prime factors divides is 1. */
  lemma NoOtherFactor(k: nat)
    requires k > 0 && PERIOD % k == 0
    requires k % 2 != 0 && k % 3 != 0 && k % 7 != 0 && k % 11 != 0 && k % 31 != 0 && k % 151 != 0 && k % 331 != 0
    ensures k == 1
  {
    SmallPrimes();
    Prime151();
    Prime331();
    Euclid(k, 2, 1073741823);
    Euclid(k, 3, 357913941);
    Euclid(k, 3, 119304647);
    Euclid(k, 7, 17043521);
    Euclid(k, 11, 1549411);
    Euclid(k, 31, 49981);
    Euclid(k, 151, 331);
    Euclid(k, 331, 1);
  }

  // ----- The full period -----

  lemma FirstReturnDivides(d: nat, e: nat)
    requires FirstReturn(d) && State(e) == 1
    ensures d * (e / d) == e
  {
    hide State;
    assert e == (e / d) * d + e % d;
    ReturnIsMultiple(d, e / d, e % d);
  }

  lemma FirstReturnIsPeriod(d: nat)
    requires FirstReturn(d) && d <= PERIOD
    ensures d == PERIOD
  {
    hide State, FirstReturn;
    FullPower();
    FirstReturnPositive(d);
    FirstReturnDivides(d, PERIOD);
    OnlyWholePeriod(d, PERIOD / d);
  }

  lemma FirstReturnPositive(d: nat)
    requires FirstReturn(d)
    ensures d > 0
  {
  }

  lemma OnlyWholePeriod(d: nat, k: nat)
    requires FirstReturn(d) && d * k == PERIOD
    ensures d == PERIOD
  {
    hide State, FirstReturn;
    assert k > 0;
    MultipleMod(PERIOD, d, k);
    NoPrimeFactorLeft(d, k);
    NoOtherFactor(k);
  }

  lemma NoPrimeFactorLeft(d: nat, k: nat)
    requires FirstReturn(d) && d * k == PERIOD
    ensures k % 2 != 0 && k % 3 != 0 && k % 7 != 0 && k % 11 != 0 && k % 31 != 0 && k % 151 != 0 && k % 331 != 0
  {
    WithoutTwo();
    WithoutThree();
    WithoutSeven();
    WithoutEleven();
    WithoutThirtyOne();
    Without151();
    Without331();
    if k % 2 == 0 { NoReturnBelow(d, k, 2, 1073741823); }
    if k % 3 == 0 { NoReturnBelow(d, k, 3, 715827882); }
    if k % 7 == 0 { NoReturnBelow(d, k, 7, 306783378); }
    if k % 11 == 0 { NoReturnBelow(d, k, 11, 195225786); }
    if k % 31 == 0 { NoReturnBelow(d, k, 31, 69273666); }
    if k % 151 == 0 { NoReturnBelow(d, k, 151, 14221746); }
    if k % 331 == 0 { NoReturnBelow(d, k, 331, 6487866); }
  }

  lemma FirstReturnExists(e: nat) returns (d: nat)
    requires e > 0 && State(e) == 1
    ensures FirstReturn(d) && d <= e
    decreases e
  {
    if k: nat :| 0 < k < e && State(k) == 1 {
      d := FirstReturnExists(k);
    } else {
      d := e;
    }
  }

  /** The generator returns to its seed after 2^31 - 2 draws and not before. */
  lemma PeriodIsFirstReturn()
    ensures FirstReturn(PERIOD)
  {
    FullPower();
    var d := FirstReturnExists(PERIOD);
    FirstReturnIsPeriod(d);
  }

  lemma StatesDiffer(i: nat, j: nat)
    requires i < j < PERIOD
    ensures State(i) != State(j)
  {
    PeriodIsFirstReturn();
    if State(i) == State(j) {
      StateCancels(i, j - i);
    }
  }

  lemma RepeatsAfter(k: nat, p: nat)
    requires State(p) == 1
    ensures State(k + p) == State(k)
  {
    hide Step;
    StateInRange(k);
    StateProduct(k, p);
  }

  lemma StateRepeats(k: nat)
    ensures State(k + PERIOD) == State(k)
  {
    hide State;
    PeriodIsFirstReturn();
    RepeatsAfter(k, PERIOD);
  }

  ghost function Visited(n: nat): set<nat> {
    if n == 0 then {} else Visited(n - 1) + {State(n - 1)}
  }

  ghost function UpTo(n: nat): set<nat> {
    if n == 0 then {} else UpTo(n - 1) + {n}
  }

  lemma {:induction false} VisitedAt(n: nat, v: nat) returns (k: nat)
    requires v in Visited(n)
    ensures k < n && State(k) == v
  {
    if v == State(n - 1) {
      k := n - 1;
    } else {
      k := VisitedAt(n - 1, v);
    }
  }

  lemma {:induction false} VisitedSize(n: nat)
    requires n <= PERIOD
    ensures |Visited(n)| == n && forall v <- Visited(n) :: 1 <= v <= PERIOD
  {
    if n > 0 {
      VisitedSize(n - 1);
      StateInRange(n - 1);
      if State(n - 1) in Visited(n - 1) {
        var k := VisitedAt(n - 1, State(n - 1));
        StatesDiffer(k, n - 1);
      }
    }
  }

  lemma {:induction false} UpToMember(n: nat)
    ensures |UpTo(n)| == n && forall v: nat :: v in UpTo(n) <==> 1 <= v <= n
  {
    if n > 0 { UpToMember(n - 1); }
  }

  lemma SubsetOfSameSize(s: set<nat>, t: set<nat>)
    requires s <= t && |s| == |t|
    ensures s == t
  {
    if !(t <= s) {
      var x :| x in t && x !in s;
      SubsetSize(s, t - {x});
    }
  }

  lemma SubsetSize(s: set<nat>, t: set<nat>)
    requires s <= t
    ensures |s| <= |t|
  {
    assert t == s + (t - s);
  }

  /** Full period: every value from 1 to 2^31 - 2 is drawn at exactly one place in each period. */
  lemma FullPeriod(v: nat) returns (k: nat)
    requires 1 <= v <= PERIOD
    ensures k < PERIOD && State(k) == v
    ensures forall j: nat :: j < PERIOD && State(j) == v ==> j == k
  {
    hide State, Visited, UpTo;
    VisitedSize(PERIOD);
    UpToMember(PERIOD);
    SubsetOfSameSize(Visited(PERIOD), UpTo(PERIOD));
    k := VisitedAt(PERIOD, v);
    forall j: nat | j < PERIOD && j != k ensures State(j) != v {
      StatesDiffer(if j < k then j else k, if j < k then k else j);
    }
  }
}
