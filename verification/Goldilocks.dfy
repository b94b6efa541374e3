/** The Goldilocks field: 64-bit arithmetic modulo 2^64 - 2^32 + 1. Values of type `U64` are machine
    words, so every assignment to one is checked not to overflow. */
module Goldilocks {
  import opened Options
  import opened Congruence
  import opened NumberTheory

  const TWO32: int := 0x1_0000_0000
  const TWO64: int := 0x1_0000_0000_0000_0000
  const TWO128: int := 0x1_0000_0000_0000_0000_0000_0000_0000_0000
  const ORDER: Modulus := 0xFFFF_FFFF_0000_0001
  const EPSILON: int := 0xFFFF_FFFF

  type U64 = x: int | 0 <= x < 0x1_0000_0000_0000_0000
  type U128 = x: int | 0 <= x < 0x1_0000_0000_0000_0000_0000_0000_0000_0000
  type I64 = x: int | -0x8000_0000_0000_0000 <= x < 0x8000_0000_0000_0000

  /** Canonical field elements. */
  type Fe = x: int | 0 <= x < 0xFFFF_FFFF_0000_0001

  function OverflowingAdd(a: U64, b: U64): (U64, bool) {
    if a + b < TWO64 then (a + b, false) else (a + b - TWO64, true)
  }

  function OverflowingSub(a: U64, b: U64): (U64, bool) {
    if a >= b then (a - b, false) else (a - b + TWO64, true)
  }

  function AsU64(b: bool): U64 { if b then 1 else 0 }

  /** Subtracts the order at most once. */
  function Wrap(x: U64): (r: Fe)
    ensures r == x % ORDER
  {
    if x >= ORDER then SubtractOnce(x); x - ORDER else x
  }

  lemma SubtractOnce(x: int)
    requires ORDER <= x < 2 * ORDER
    ensures x % ORDER == x - ORDER
  {
    ModUnique(ORDER, x, 1, x - ORDER);
  }

  // ----- addition, subtraction, negation -----

  function Add(a: Fe, b: Fe): (r: Fe)
    ensures r == (a + b) % ORDER
  {
    var (sum, over) := OverflowingAdd(a, b);
    var (sum', over') := OverflowingAdd(sum, AsU64(over) * EPSILON);
    assert !over';
    assert sum' == if over then a + b - ORDER else a + b;
    AddWraps(a + b, sum');
    Wrap(sum')
  }

  lemma AddWraps(x: int, y: int)
    requires x == y || x == y + ORDER
    ensures x % ORDER == y % ORDER
  {
    ModMultiple(ORDER, y, 1);
  }

  function Sub(a: Fe, b: Fe): (r: Fe)
    ensures r == (a - b) % ORDER
  {
    var (diff, under) := OverflowingSub(a, b);
    var (diff', under') := OverflowingSub(diff, AsU64(under) * EPSILON);
    assert !under';
    assert diff' == if under then a - b + ORDER else a - b;
    ModMultiple(ORDER, a - b, 1);
    Wrap(diff')
  }

  function Neg(a: Fe): (r: Fe)
    ensures r == (0 - a) % ORDER
  {
    ModMultiple(ORDER, 0 - a, 1);
    if a == 0 then 0 else ORDER - a
  }

  // ----- multiplication -----

  /** Adds without reducing below the order; the carry stands for 2^64, which is EPSILON in the field. */
  function AddNoCanonicalize(x: U64, y: U64): (r: U64)
    requires x + y < TWO64 + ORDER
    ensures r == if x + y < TWO64 then x + y else x + y - ORDER
  {
    var (sum, carry) := OverflowingAdd(x, y);
    sum + EPSILON * AsU64(carry)
  }

  /** Reduces 128 bits, using that 2^64 is EPSILON and 2^96 is -1 in the field. */
  function Reduce128(x: U128): (r: Fe)
    ensures r == x % ORDER
  {
    var lo: U64 := x % TWO64;
    var hi: U64 := x / TWO64;
    var hiHi: U64 := hi / TWO32;
    var hiLo: U64 := hi % TWO32;
    var (t, borrow) := OverflowingSub(lo, hiHi);
    var t0: U64 := if borrow then t - EPSILON else t;
    var t1: U64 := hiLo * EPSILON;
    var t2 := AddNoCanonicalize(t0, t1);
    Reduced(x, lo, hi, hiHi, hiLo, t0, t2);
    Wrap(t2)
  }

  lemma Reduced(x: int, lo: int, hi: int, hiHi: int, hiLo: int, t0: int, t2: int)
    requires x == hi * TWO64 + lo && hi == hiHi * TWO32 + hiLo
    requires t0 == lo - hiHi || t0 == lo - hiHi + ORDER
    requires t2 == t0 + hiLo * EPSILON || t2 == t0 + hiLo * EPSILON - ORDER
    ensures t2 % ORDER == x % ORDER
  {
    var k := hiHi * (TWO32 + 1) + hiLo;
    assert x == lo - hiHi + hiLo * EPSILON + k * ORDER;
    ModMultiple(ORDER, lo - hiHi + hiLo * EPSILON, k);
    var j := (if t0 == lo - hiHi then 0 else 1) - (if t2 == t0 + hiLo * EPSILON then 0 else 1);
    ModMultiple(ORDER, lo - hiHi + hiLo * EPSILON, j);
  }

  function Mul(a: Fe, b: Fe): (r: Fe)
    ensures r == a * b % ORDER
  {
    ProductFits(a, b);
    Reduce128(a * b)
  }

  lemma ProductFits(a: Fe, b: Fe)
    ensures 0 <= a * b < TWO128
  {
    MulMono(0, a, b);
    MulMono(a, ORDER, b);
  }

  // ----- powers -----

  /** `r` is the `e`-th power of `b` in the field. */
  predicate IsPow(r: Fe, b: Fe, e: nat) { r == Pow(b, e) % ORDER }

  lemma MulPow(x: Fe, y: Fe, b: Fe, d: nat, e: nat)
    requires IsPow(x, b, d) && IsPow(y, b, e)
    ensures IsPow(Mul(x, y), b, d + e)
  {
    RepIdempotent(ORDER, Pow(b, d));
    RepIdempotent(ORDER, Pow(b, e));
    CongMul(ORDER, x, Pow(b, d), y, Pow(b, e));
    PowAdd(b, d, e);
  }

  function Square(x: Fe): (r: Fe)
    ensures r == x * x % ORDER
  {
    Mul(x, x)
  }

  /** Squares `n` times. */
  method ExpPowerOf2(x: Fe, n: nat, ghost b: Fe, ghost e: nat) returns (r: Fe)
    requires IsPow(x, b, e)
    ensures IsPow(r, b, e * Pow2(n))
  {
    r := x;
    for i := 0 to n
      invariant IsPow(r, b, e * Pow2(i))
    {
      MulPow(r, r, b, e * Pow2(i), e * Pow2(i));
      assert e * Pow2(i) + e * Pow2(i) == e * Pow2(i + 1) by { assert Pow2(i + 1) == 2 * Pow2(i); }
      r := Square(r);
    }
  }

  /** Squares `base` `n` times and multiplies the result by `tail`. */
  method ExpAcc(base: Fe, tail: Fe, n: nat, ghost b: Fe, ghost d: nat, ghost e: nat) returns (r: Fe)
    requires IsPow(base, b, d) && IsPow(tail, b, e)
    ensures IsPow(r, b, d * Pow2(n) + e)
  {
    var x := ExpPowerOf2(base, n, b, d);
    MulPow(x, tail, b, d * Pow2(n), e);
    r := Mul(x, tail);
  }

  lemma PowOfOne(b: Fe)
    ensures IsPow(b, b, 1) && IsPow(1, b, 0)
  {
    assert Pow(b, 1) == b * Pow(b, 0);
  }

  /** Square-and-multiply. */
  method PowFe(base: Fe, exponent: U64) returns (r: Fe)
    ensures IsPow(r, base, exponent)
  {
    PowOfOne(base);
    var exp := exponent;
    if exp == 0 { return 1; }
    if exp == 1 { return base; }
    var x := base;
    r := 1;
    ghost var d: nat, e: nat := 0, 1;   // r is base^d and x is base^e
    while exp >= 2
      invariant 1 <= exp && IsPow(r, base, d) && IsPow(x, base, e) && d + e * exp == exponent
      decreases exp
    {
      HalfStep(e, exp);
      if exp % 2 != 0 {
        MulPow(r, x, base, d, e);
        r, d := Mul(r, x), d + e;
      }
      MulPow(x, x, base, e, e);
      x, e := Square(x), e + e;
      exp := exp / 2;
    }
    assert exp == 1;
    MulPow(r, x, base, d, e);
    r := Mul(r, x);
  }

  lemma HalfStep(e: nat, exp: nat)
    ensures e * exp == (e + e) * (exp / 2) + (if exp % 2 != 0 then e else 0)
  {
    Distribute(e, exp / 2, exp % 2);
  }

  lemma Distribute(e: int, h: int, r: int)
    ensures e * (2 * h + r) == (e + e) * h + e * r
  {
  }

  // ----- the inverse -----

  /** The power `ORDER - 2` by an addition chain; zero has no inverse. */
  method TryInverse(base: Fe) returns (r: Option<Fe>)
    ensures r.None? <==> base == 0
    ensures r.Some? ==> IsPow(r.value, base, ORDER - 2)
  {
    if base == 0 { return None; }
    PowOfOne(base);
    MulPow(base, base, base, 1, 1);
    var s1 := Square(base);
    MulPow(s1, base, base, 2, 1);
    var t2 := Mul(s1, base);
    MulPow(t2, t2, base, 3, 3);
    var s2 := Square(t2);
    MulPow(s2, base, base, 6, 1);
    var t3 := Mul(s2, base);
    ghost var e := 7;
    var t6 := ExpAcc(t3, t3, 3, base, e, e);
    ghost var e6 := e * Pow2(3) + e;
    var t12 := ExpAcc(t6, t6, 6, base, e6, e6);
    ghost var e12 := e6 * Pow2(6) + e6;
    var t24 := ExpAcc(t12, t12, 12, base, e12, e12);
    ghost var e24 := e12 * Pow2(12) + e12;
    var t30 := ExpAcc(t24, t6, 6, base, e24, e6);
    ghost var e30 := e24 * Pow2(6) + e6;
    MulPow(t30, t30, base, e30, e30);
    var s30 := Square(t30);
    MulPow(s30, base, base, e30 + e30, 1);
    var t31 := Mul(s30, base);
    ghost var e31 := e30 + e30 + 1;
    var t63 := ExpAcc(t31, t31, 32, base, e31, e31);
    ghost var e63 := e31 * Pow2(32) + e31;
    MulPow(t63, t63, base, e63, e63);
    var s63 := Square(t63);
    MulPow(s63, base, base, e63 + e63, 1);
    ChainExponent(e6, e12, e24, e30, e31, e63);
    r := Some(Mul(s63, base));
  }

  lemma Pow2Values()
    ensures Pow2(3) == 8 && Pow2(6) == 64 && Pow2(12) == 4096 && Pow2(32) == TWO32
  {
    Pow2Split(3, 3);
    Pow2Split(6, 6);
    Pow2Split(12, 12);
    Pow2Split(24, 6);
    Pow2Split(30, 1);
    Pow2Split(31, 1);
    assert Pow2(0) == 1 && Pow2(1) == 2 && Pow2(2) == 4;
  }

  lemma ChainExponent(e6: int, e12: int, e24: int, e30: int, e31: int, e63: int)
    requires e6 == 7 * Pow2(3) + 7 && e12 == e6 * Pow2(6) + e6 && e24 == e12 * Pow2(12) + e12
    requires e30 == e24 * Pow2(6) + e6 && e31 == e30 + e30 + 1 && e63 == e31 * Pow2(32) + e31
    ensures e63 + e63 + 1 == ORDER - 2
  {
    Pow2Values();
    assert e6 == 63 && e12 == 4095 && e24 == 0xFF_FFFF && e30 == 0x3FFF_FFFF && e31 == 0x7FFF_FFFF;
  }

  // ----- the order is prime -----

  /** From the `e`-th power of 7 to the `2 * e + 1`-th. */
  lemma OddStep(x: int, q: int, y: int, e: nat)
    requires Cong(ORDER, Pow(7, e), x) && x * x * 7 == q * ORDER + y
    ensures Cong(ORDER, Pow(7, e + e + 1), y)
  {
    PowAdd(7, e, e);
    PowAdd(7, e + e, 1);
    assert Pow(7, 1) == 7 * Pow(7, 0);
    CongMul(ORDER, Pow(7, e), x, Pow(7, e), x);
    CongMul(ORDER, Pow(7, e + e), x * x, 7, 7);
    ModMultiple(ORDER, y, q);
  }

  /** From `b^(2^e)` to `b^(2^(e+1))`. */
  lemma SquareStep(b: int, x: int, q: int, y: int, e: nat)
    requires Cong(ORDER, Pow(b, Pow2(e)), x) && x * x == q * ORDER + y
    ensures Cong(ORDER, Pow(b, Pow2(e + 1)), y)
  {
    PowAdd(b, Pow2(e), Pow2(e));
    assert Pow2(e + 1) == Pow2(e) + Pow2(e);
    CongMul(ORDER, Pow(b, Pow2(e)), x, Pow(b, Pow2(e)), x);
    ModMultiple(ORDER, y, q);
  }

  lemma OddChain1(e: nat) returns (d: nat)
    requires Cong(ORDER, Pow(7, e), 7)
    ensures d == 256 * e + 255 && Cong(ORDER, Pow(7, d), 2624486902016877951)
  {
    d := e;
    OddStep(7, 0, 343, d); d := d + d + 1;
    OddStep(343, 0, 823543, d); d := d + d + 1;
    OddStep(823543, 0, 4747561509943, d); d := d + d + 1;
    OddStep(4747561509943, 8553020, 11074261478625843323, d); d := d + d + 1;
    OddStep(11074261478625843323, 46538016023229720673, 12148266161370408270, d); d := d + d + 1;
    OddStep(12148266161370408270, 56002435508678139577, 7007601668316978083, d); d := d + d + 1;
    OddStep(7007601668316978083, 18634473742308562026, 8125271997680889877, d); d := d + d + 1;
    OddStep(8125271997680889877, 25052676695413524112, 2624486902016877951, d); d := d + d + 1;
  }

  lemma OddChain2(e: nat) returns (d: nat)
    requires Cong(ORDER, Pow(7, e), 2624486902016877951)
    ensures d == 256 * e + 255 && Cong(ORDER, Pow(7, d), 4326791766630348883)
  {
    d := e;
    OddStep(2624486902016877951, 2613768603856235308, 8253119735826302939, d); d := d + d + 1;
    OddStep(8253119735826302939, 25847265827672469332, 3543566522599720475, d); d := d + d + 1;
    OddStep(3543566522599720475, 4764962617243911856, 11981551684735969599, d); d := d + d + 1;
    OddStep(11981551684735969599, 54475904345860342852, 10062120588441922115, d); d := d + d + 1;
    OddStep(10062120588441922115, 38419999349886321742, 10485806445487905393, d); d := d + d + 1;
    OddStep(10485806445487905393, 41723620970151811147, 4139485063330164956, d); d := d + d + 1;
    OddStep(4139485063330164956, 6502359206338864843, 12134830135347446949, d); d := d + d + 1;
    OddStep(12134830135347446949, 55878626223541897244, 4326791766630348883, d); d := d + d + 1;
  }

  lemma OddChain3(e: nat) returns (d: nat)
    requires Cong(ORDER, Pow(7, e), 4326791766630348883)
    ensures d == 256 * e + 255 && Cong(ORDER, Pow(7, d), 13093775858033092690)
  {
    d := e;
    OddStep(4326791766630348883, 7104120296206835795, 206761543466863628, d); d := d + d + 1;
    OddStep(206761543466863628, 16222502457426627, 10086585273483141421, d); d := d + d + 1;
    OddStep(10086585273483141421, 38607052533218672533, 1855730417186139594, d); d := d + d + 1;
    OddStep(1855730417186139594, 1306796883947548869, 7626447102712710903, d); d := d + d + 1;
    OddStep(7626447102712710903, 22071042257716239407, 7790920094560990216, d); d := d + d + 1;
    OddStep(7790920094560990216, 23033281637127610743, 5901922255895126089, d); d := d + d + 1;
    OddStep(5901922255895126089, 13217985964617414221, 8935258787870022506, d); d := d + d + 1;
    OddStep(8935258787870022506, 30296508974182092522, 13093775858033092690, d); d := d + d + 1;
  }

  lemma OddChain4(e: nat) returns (d: nat)
    requires Cong(ORDER, Pow(7, e), 13093775858033092690)
    ensures d == 128 * e + 127 && Cong(ORDER, Pow(7, d), 1753635133440165772)
  {
    d := e;
    OddStep(13093775858033092690, 65059110649923945754, 11243737384857129666, d); d := d + d + 1;
    OddStep(11243737384857129666, 47973312218535118729, 2063617152444052883, d); d := d + d + 1;
    OddStep(2063617152444052883, 1615982210782367681, 13064848991504552222, d); d := d + d + 1;
    OddStep(13064848991504552222, 64771970039786058224, 16593403251012455084, d); d := d + d + 1;
    OddStep(16593403251012455084, 104483870589968102175, 5859133952941131217, d); d := d + d + 1;
    OddStep(5859133952941131217, 13027022755088247160, 15659105665374529263, d); d := d + d + 1;
    OddStep(15659105665374529263, 93049110738273779291, 1753635133440165772, d); d := d + d + 1;
  }

  lemma SquareChain1(b: int, e: nat)
    requires Cong(ORDER, Pow(b, Pow2(e)), 1753635133440165772)
    ensures Cong(ORDER, Pow(b, Pow2(e + 8)), 9713644485405565297)
  {
    SquareStep(b, 1753635133440165772, 166708887468903991, 4614640910117430873, e + 0);
    SquareStep(b, 4614640910117430873, 1154399424049971884, 9123114210336311365, e + 1);
    SquareStep(b, 9123114210336311365, 4511973093009996851, 16116352524544190054, e + 2);
    SquareStep(b, 16116352524544190054, 14080361158478670879, 6414415596519834757, e + 3);
    SquareStep(b, 6414415596519834757, 2230460144622294524, 1213594585890690845, e + 4);
    SquareStep(b, 1213594585890690845, 79841288704448195, 17096174751763063430, e + 5);
    SquareStep(b, 17096174751763063430, 15844486704156700236, 5456943929260765144, e + 6);
    SquareStep(b, 5456943929260765144, 1614281465338340559, 9713644485405565297, e + 7);
  }

  lemma SquareChain2(b: int, e: nat)
    requires Cong(ORDER, Pow(b, Pow2(e)), 9713644485405565297)
    ensures Cong(ORDER, Pow(b, Pow2(e + 8)), 6115771955107415310)
  {
    SquareStep(b, 9713644485405565297, 5114988793349933654, 16905767614792059275, e + 0);
    SquareStep(b, 16905767614792059275, 15493518941330557636, 5416168637041100469, e + 1);
    SquareStep(b, 5416168637041100469, 1590247178281506213, 17654865857378133588, e + 2);
    SquareStep(b, 17654865857378133588, 16896981237942002723, 3511170319078647661, e + 3);
    SquareStep(b, 3511170319078647661, 668319404399374695, 18146160046829613826, e + 4);
    SquareStep(b, 18146160046829613826, 17850473948468743512, 9306717745644682924, e + 5);
    SquareStep(b, 9306717745644682924, 4695408299218975106, 12380578893860276750, e + 6);
    SquareStep(b, 12380578893860276750, 8309256808156222390, 6115771955107415310, e + 7);
  }

  lemma SquareChain3(b: int, e: nat)
    requires Cong(ORDER, Pow(b, Pow2(e)), 6115771955107415310)
    ensures Cong(ORDER, Pow(b, Pow2(e + 8)), 13797081185216407910)
  {
    SquareStep(b, 6115771955107415310, 2027602620068516376, 17776499369601055404, e + 0);
    SquareStep(b, 17776499369601055404, 17130607366173278638, 16207902636198568418, e + 1);
    SquareStep(b, 16207902636198568418, 14240784545824149997, 1532612707718625687, e + 2);
    SquareStep(b, 1532612707718625687, 127334216977357403, 17492915097719143606, e + 3);
    SquareStep(b, 17492915097719143606, 16588405924890216597, 455906449640507599, e + 4);
    SquareStep(b, 455906449640507599, 11267608529812975, 11353340290879379826, e + 5);
    SquareStep(b, 11353340290879379826, 6987592784692205430, 1803076106186727246, e + 6);
    SquareStep(b, 1803076106186727246, 176241586724885086, 13797081185216407910, e + 7);
  }

  lemma SquareChain4(b: int, e: nat)
    requires Cong(ORDER, Pow(b, Pow2(e)), 13797081185216407910)
    ensures Cong(ORDER, Pow(b, Pow2(e + 7)), 18446744069414584320)
  {
    SquareStep(b, 13797081185216407910, 10319406422896923811, 17870292113338400769, e + 0);
    SquareStep(b, 17870292113338400769, 17311854006015885313, 549755813888, e + 1);
    SquareStep(b, 549755813888, 16384, 70368744161280, e + 2);
    SquareStep(b, 70368744161280, 268435455, 17293822564807737345, e + 3);
    SquareStep(b, 17293822564807737345, 16212958654255595520, 18446744069397807105, e + 4);
    SquareStep(b, 18446744069397807105, 18446744069381029889, 281474976710656, e + 5);
    SquareStep(b, 281474976710656, 4294967296, 18446744069414584320, e + 6);
  }

  /** 7 to the odd part of `ORDER - 1`, squared 31 times, is -1. */
  lemma SevenIsNoSquare()
    ensures Cong(ORDER, Pow(Pow(7, EPSILON), Pow2(31)), 0 - 1)
  {
    assert Pow(7, 1) == 7 * Pow(7, 0);
    var d := OddChain1(1);
    d := OddChain2(d);
    d := OddChain3(d);
    d := OddChain4(d);
    assert d == EPSILON;
    var b := Pow(7, d);
    assert Pow(b, Pow2(0)) == b * Pow(b, 0) by { assert Pow2(0) == 1; }
    SquareChain1(b, 0);
    SquareChain2(b, 8);
    SquareChain3(b, 16);
    SquareChain4(b, 24);
    ModMultiple(ORDER, 0 - 1, 1);
  }

  lemma OrderIsPrime()
    ensures IsPrime(ORDER)
  {
    SevenIsNoSquare();
    Pow2Values();
    Proth(ORDER, 7, EPSILON, 32);
  }

  /** The inverse is an inverse: every nonzero element times its inverse is one. */
  lemma InverseCorrect(x: Fe, y: Fe)
    requires x != 0 && IsPow(y, x, ORDER - 2)
    ensures Mul(x, y) == 1
  {
    OrderIsPrime();
    assert !Cong(ORDER, x, 0) by { if Cong(ORDER, x, 0) { CanonicalEq(ORDER, x, 0); } }
    Fermat(ORDER, x);
    PowOfOne(x);
    MulPow(x, y, x, 1, ORDER - 2);
    assert 1 % ORDER == 1;
  }

  /** Division, which panics on a zero divisor. */
  method Div(a: Fe, b: Fe) returns (r: Option<Fe>)
    ensures r.None? <==> b == 0
    ensures r.Some? ==> Mul(r.value, b) == a
  {
    var i := TryInverse(b);
    if i.None? { return None; }
    InverseCorrect(b, i.value);
    QuotientTimesDivisor(a, b, i.value);
    r := Some(Mul(a, i.value));
  }

  lemma QuotientTimesDivisor(a: Fe, b: Fe, i: Fe)
    requires Mul(b, i) == 1
    ensures Mul(Mul(a, i), b) == a
  {
    TimesInverse(ORDER, a, b, i, Mul(a, i));
  }

  lemma TimesInverse(p: Modulus, a: int, b: int, i: int, x: int)
    requires b * i % p == 1 && x == a * i % p && 0 <= a < p
    ensures x * b % p == a
  {
    RepIdempotent(p, a * i);
    ModUnique(p, 1, 0, 1);
    ModUnique(p, a, 0, a);
    CongThrough(p, a, b, i, x);
  }

  lemma CongThrough(p: Modulus, a: int, b: int, i: int, x: int)
    requires Cong(p, b * i, 1) && Cong(p, x, a * i)
    ensures Cong(p, x * b, a)
  {
    CongMul(p, x, a * i, b, b);
    CongMul(p, a, a, b * i, 1);
    Regroup(a, b, i);
  }

  lemma Regroup(a: int, b: int, i: int)
    ensures a * i * b == a * (b * i)
  {
  }

  // ----- conversion from signed integers -----

  /** Wrapping addition of the order to a negative number gives its canonical representative. */
  function FromI64(n: I64): (r: Fe)
    ensures r == n % ORDER
  {
    if n < 0 then
      ModMultiple(ORDER, n, 1);
      ModUnique(ORDER, n + ORDER, 0, n + ORDER);
      OverflowingAdd(ORDER, n + TWO64).0
    else
      n
  }

  function ToSignedInteger(x: Fe): int { if x <= (ORDER - 1) / 2 then x else x - ORDER }

  /** Conversion and signed read-back is the identity exactly on the range of the field. */
  lemma SignedRoundTrip(n: I64)
    ensures ToSignedInteger(FromI64(n)) == n <==> 0 - (ORDER - 1) / 2 <= n <= (ORDER - 1) / 2
  {
    if n < 0 { ModMultiple(ORDER, n, 1); ModUnique(ORDER, n + ORDER, 0, n + ORDER); }
  }
}
