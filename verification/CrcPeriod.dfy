/** The period of x^16 + x^12 + x^5 + 1 is 32767, computed by repeated squaring on 16-bit words. */
module CrcPeriod {
  import opened CTypes
  import opened PolyDivision
  import opened PolyPeriod
  import opened BitOrder
  import opened Crc16

  function Select(on: bool, b: bv16): bv16 {
    if on then b else 0
  }

  /** One step of Horner's rule: shift, and add b if a has the bit w. */
  function Acc(acc: bv16, a: bv16, b: bv16, w: bv16): bv16 {
    Xor16(Shift(acc), Select(Has(a, w), b))
  }

  /** The product of the top j bits of a with b, modulo the generator. */
  function Mul(a: bv16, b: bv16, j: nat): bv16
    requires j <= 16
  {
    if j == 0 then 0 else Acc(Mul(a, b, j - 1), a, b, Weight(16 - j))
  }

  lemma SelectBits(on: bool, b: bv16)
    ensures Msb(Select(on, b), 16) == Scale(on, Msb(b, 16))
  {
    MsbZero();
  }

  lemma AccBits(acc: bv16, a: bv16, b: bv16, k: nat)
    requires Generator(G) && |G| == 16
    ensures Msb(Acc(acc, a, b, Weight(k)), 16)
            == Xor(Step(G, Msb(acc, 16), false), Scale(At(a, k), Msb(b, 16)))
  {
    hide Has, Select, Shift, Xor16, Step, Weight;
    ShiftIsStep(acc);
    WordXor(Shift(acc), Select(Has(a, Weight(k)), b), 16);
    SelectBits(Has(a, Weight(k)), b);
  }

  lemma MulNext(a: bv16, b: bv16, j: nat)
    requires j < 16
    ensures Mul(a, b, 0) == 0
    ensures Mul(a, b, j + 1) == Acc(Mul(a, b, j), a, b, Weight(15 - j))
  {
    hide Acc, Weight;
  }

  lemma TopBits(a: bv16, j: nat)
    requires j < 16
    ensures Msb(a, 16)[..j + 1] == Msb(a, 16)[..j] + [At(a, 15 - j)]
  {
    hide At;
  }

  lemma {:induction false} MulBits(a: bv16, b: bv16, j: nat)
    requires Generator(G) && |G| == 16 && j <= 16
    ensures Msb(Mul(a, b, j), 16) == MulMod(G, Msb(a, 16)[..j], Msb(b, 16))
  {
    hide At, Acc, Step, Xor, Scale, G, Weight, Mul;
    if j == 0 {
      MulNext(a, b, 0);
      MsbZero();
    } else {
      MulBits(a, b, j - 1);
      MulNext(a, b, j - 1);
      AccBits(Mul(a, b, j - 1), a, b, 16 - j);
      TopBits(a, j - 1);
      MulSnoc(G, Msb(a, 16)[..j - 1], At(a, 16 - j), Msb(b, 16));
    }
  }

  /** The whole product in one expression. */
  function Mul16(a: bv16, b: bv16): bv16 {
    var p := Acc(Acc(Acc(Acc(0, a, b, 0x8000), a, b, 0x4000), a, b, 0x2000), a, b, 0x1000);
    var q := Acc(Acc(Acc(Acc(p, a, b, 0x800), a, b, 0x400), a, b, 0x200), a, b, 0x100);
    var s := Acc(Acc(Acc(Acc(q, a, b, 0x80), a, b, 0x40), a, b, 0x20), a, b, 0x10);
    Acc(Acc(Acc(Acc(s, a, b, 8), a, b, 4), a, b, 2), a, b, 1)
  }

  lemma MulFour(a: bv16, b: bv16, j: nat)
    requires j + 4 <= 16
    ensures Mul(a, b, j + 4)
            == Acc(Acc(Acc(Acc(Mul(a, b, j), a, b, Weight(15 - j)), a, b, Weight(14 - j)),
                       a, b, Weight(13 - j)), a, b, Weight(12 - j))
  {
    hide Acc, Weight, Mul;
    MulNext(a, b, j);
    MulNext(a, b, j + 1);
    MulNext(a, b, j + 2);
    MulNext(a, b, j + 3);
  }

  lemma Mul16IsMul(a: bv16, b: bv16)
    ensures Mul16(a, b) == Mul(a, b, 16)
  {
    hide Acc, Mul;
    MulNext(a, b, 0);
    MulFour(a, b, 0);
    MulFour(a, b, 4);
    MulFour(a, b, 8);
    MulFour(a, b, 12);
  }

  /** The word p is x^n modulo the generator. */
  ghost predicate IsPower(n: nat, p: bv16) {
    Generator(G) && |G| == 16 && Msb(p, 16) == XPower(G, n)
  }

  lemma Product(m: nat, p: bv16, n: nat, q: bv16)
    requires IsPower(m, p) && IsPower(n, q)
    ensures IsPower(m + n, Mul16(p, q))
  {
    hide Mul16, Mul, At, G, XPower, MulMod;
    Mul16IsMul(p, q);
    MulBits(p, q, 16);
    assert Msb(p, 16)[..16] == Msb(p, 16);
    XPowerAdd(G, m, n);
  }

  lemma PowerOne()
    ensures IsPower(0, 1) && IsPower(1, 2)
  {
    GeneratorValid();
    assert Msb(1, 16) == One(16);
    RunNext(G, One(16), 0);
    ShiftIsStep(1);
    assert Shift(1) == 2;
  }

  // The products that lead to x^217, x^1057, x^4681 and x^32768, named after the exponent they reach.

  lemma LowProducts()
    ensures Mul16(0x2, 0x2) == 0x4
    ensures Mul16(0x4, 0x4) == 0x10
    ensures Mul16(0x10, 0x10) == 0x100
    ensures Mul16(0x100, 0x2) == 0x200
  {}

  lemma Reach33()
    ensures Mul16(0x3730, 0x2) == 0x6e60
  {}

  lemma Reach16()
    ensures Mul16(0x100, 0x100) == 0x1021
  {}

  lemma Reach32()
    ensures Mul16(0x1021, 0x1021) == 0x3730
  {}

  lemma Reach64()
    ensures Mul16(0x3730, 0x3730) == 0xb861
  {}

  lemma Reach128()
    ensures Mul16(0xb861, 0xb861) == 0xaefc
  {}

  lemma Reach256()
    ensures Mul16(0xaefc, 0xaefc) == 0x8e29
  {}

  lemma Reach512()
    ensures Mul16(0x8e29, 0x8e29) == 0x13fc
  {}

  lemma Reach1024()
    ensures Mul16(0x13fc, 0x13fc) == 0x36c4
  {}

  lemma Reach2048()
    ensures Mul16(0x36c4, 0x36c4) == 0xfd50
  {}

  lemma Reach4096()
    ensures Mul16(0xfd50, 0xfd50) == 0xaa9e
  {}

  lemma Reach8192()
    ensures Mul16(0xaa9e, 0xaa9e) == 0x881c
  {}

  lemma Reach16384()
    ensures Mul16(0x881c, 0x881c) == 0x4458
  {}

  lemma Reach32768()
    ensures Mul16(0x4458, 0x4458) == 0x2
  {}

  lemma Reach25()
    ensures Mul16(0x1021, 0x200) == 0x6662
  {}

  lemma Reach89()
    ensures Mul16(0xb861, 0x6662) == 0xde8a
  {}

  lemma Reach217()
    ensures Mul16(0xaefc, 0xde8a) == 0x48e3
  {}

  lemma Reach1057()
    ensures Mul16(0x36c4, 0x6e60) == 0xf2af
  {}

  lemma Reach73()
    ensures Mul16(0xb861, 0x200) == 0x8fa6
  {}

  lemma Reach585()
    ensures Mul16(0x13fc, 0x8fa6) == 0x4500
  {}

  lemma Reach4681()
    ensures Mul16(0xaa9e, 0x4500) == 0x2c42
  {}

  lemma PowersOfTwo()
    ensures IsPower(1, 2) && IsPower(8, 0x100) && IsPower(9, 0x200) && IsPower(16, 0x1021) && IsPower(32, 0x3730)
    ensures IsPower(64, 0xb861) && IsPower(128, 0xaefc) && IsPower(512, 0x13fc) && IsPower(1024, 0x36c4)
    ensures IsPower(4096, 0xaa9e) && IsPower(32768, 2)
  {
    hide IsPower, Mul16;
    PowerOne();
    LowProducts();
    Product(1, 0x2, 1, 0x2);
    Product(2, 0x4, 2, 0x4);
    Product(4, 0x10, 4, 0x10);
    Product(8, 0x100, 1, 0x2);
    Reach16();
    Product(8, 0x100, 8, 0x100);
    Reach32();
    Product(16, 0x1021, 16, 0x1021);
    Reach64();
    Product(32, 0x3730, 32, 0x3730);
    Reach128();
    Product(64, 0xb861, 64, 0xb861);
    Reach256();
    Product(128, 0xaefc, 128, 0xaefc);
    Reach512();
    Product(256, 0x8e29, 256, 0x8e29);
    Reach1024();
    Product(512, 0x13fc, 512, 0x13fc);
    Reach2048();
    Product(1024, 0x36c4, 1024, 0x36c4);
    Reach4096();
    Product(2048, 0xfd50, 2048, 0xfd50);
    Reach8192();
    Product(4096, 0xaa9e, 4096, 0xaa9e);
    Reach16384();
    Product(8192, 0x881c, 8192, 0x881c);
    Reach32768();
    Product(16384, 0x4458, 16384, 0x4458);
  }

  lemma Powers()
    ensures IsPower(217, 0x48e3) && IsPower(1057, 0xf2af) && IsPower(4681, 0x2c42) && IsPower(32768, 2)
  {
    hide IsPower, Mul16;
    PowersOfTwo();
    Reach33();
    Product(32, 0x3730, 1, 0x2);
    Reach25();
    Product(16, 0x1021, 9, 0x200);
    Reach89();
    Product(64, 0xb861, 25, 0x6662);
    Reach217();
    Product(128, 0xaefc, 89, 0xde8a);
    Reach1057();
    Product(1024, 0x36c4, 33, 0x6e60);
    Reach73();
    Product(64, 0xb861, 9, 0x200);
    Reach585();
    Product(512, 0x13fc, 73, 0x8fa6);
    Reach4681();
    Product(4096, 0xaa9e, 585, 0x4500);
  }

  /** x^n is 1 for n = 32767 and for none of its largest proper divisors 32767/7, 32767/31, 32767/151. */
  lemma KnownPeriods()
    ensures Generator(G) && Period(G, 32767) && !Period(G, 217) && !Period(G, 1057) && !Period(G, 4681)
  {
    hide At;
    PowerOne();
    Powers();
    MsbInjective(0x48e3, 1, 16);
    MsbInjective(0xf2af, 1, 16);
    MsbInjective(0x2c42, 1, 16);
    RunAdd(G, One(16), 32767, 1);
    RunAdd(G, One(16), 0, 1);
    if XPower(G, 32767) != One(16) {
      RunInjective(G, XPower(G, 32767), One(16), 1);
    }
  }

  /** Trial division: the only divisors of 32767 up to n are 1, 7, 31 and 151. */
  predicate Sieve(n: nat) {
    n == 0 || ((32767 % n == 0 ==> n == 1 || n == 7 || n == 31 || n == 151) && Sieve(n - 1))
  }

  lemma {:induction false} SieveAt(n: nat, d: nat)
    requires Sieve(n) && 0 < d <= n && 32767 % d == 0
    ensures d == 1 || d == 7 || d == 31 || d == 151
    decreases n
  {
    if d < n {
      SieveAt(n - 1, d);
    }
  }

  lemma SieveHalf()
    ensures Sieve(96)
  {
    assert Sieve(12);
    assert Sieve(24);
    assert Sieve(36);
    assert Sieve(48);
    assert Sieve(60);
    assert Sieve(72);
    assert Sieve(84);
  }

  lemma SieveAll()
    ensures Sieve(181)
  {
    SieveHalf();
    assert Sieve(108);
    assert Sieve(120);
    assert Sieve(132);
    assert Sieve(144);
    assert Sieve(156);
    assert Sieve(168);
    assert Sieve(180);
  }

  /** Every proper divisor of 32767 divides 217, 1057 or 4681. */
  lemma ProperDivisor(d: nat)
    requires d < 32767 && Divides(d, 32767)
    ensures Divides(d, 217) || Divides(d, 1057) || Divides(d, 4681)
  {
    var k: nat :| d * k == 32767;
    Factor(32767, 182, d, k);
    SieveAll();
    if d < 182 {
      SieveAt(181, d);
      assert 1 * 217 == 217 && 7 * 31 == 217 && 31 * 7 == 217 && 151 * 7 == 1057;
    } else {
      SieveAt(181, k);
      assert d == 217 || d == 1057 || d == 4681;
      assert d * 1 == d;
    }
  }

  lemma PeriodIs32767(d: nat)
    ensures Generator(G)
    ensures Period(G, d) <==> d % 32767 == 0
  {
    KnownPeriods();
    forall c: nat {:trigger Period(G, c)} | 0 < c < 32767 && Divides(c, 32767)
      ensures !Period(G, c)
    {
      ProperDivisor(c);
      if Period(G, c) {
        var n := if Divides(c, 217) then 217 else if Divides(c, 1057) then 1057 else 4681;
        var k: nat :| c * k == n;
        PeriodMultiple(G, c, k);
      }
    }
    PrimitivePeriod(G, 32767, d);
  }

  /** A double-bit error escapes `crc16` exactly when the two bits are a multiple of 32767 bits apart. */
  lemma DoubleErrorMissedBy32767(crc: bv16, a: seq<byte>, b: seq<byte>, p: nat, q: nat)
    requires |a| == |b| && DifferAtTwo(MsbBits(a), MsbBits(b), p, q)
    ensures Crc(crc, a) == Crc(crc, b) <==> (q - p) % 32767 == 0
  {
    hide At, G, Period, Crc;
    SameCrc(crc, a, b);
    DoubleErrorMissed(G, Msb(crc, 16), MsbBits(a), MsbBits(b), p, q);
    PeriodIs32767(q - p);
  }
}
