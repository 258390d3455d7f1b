/** The Dallas one-wire CRC: bit by bit, low bit first (bertos/algo/crc8.c). */
module Crc8 {
  import opened CTypes
  import opened PolyDivision
  import opened PolyPeriod
  import opened BitOrder

  const CRC8INIT: byte := 0x00
  const CRC8POLY: byte := 0x18

  /** One pass of the inner loop over the low bit of b. */
  function BitStep(crc: byte, b: byte): byte {
    var feedback := (crc ^ b) & 1;
    var shifted := ((if feedback == 1 then crc ^ CRC8POLY else crc) >> 1) & 0x7f;
    if feedback == 1 then shifted | 0x80 else shifted
  }

  /** n passes of the inner loop. */
  function BitSteps(crc: byte, b: byte, n: nat): byte
    decreases n
  {
    if n == 0 then crc else BitSteps(BitStep(crc, b), b >> 1, n - 1)
  }

  /** The register after a whole message. */
  function Crc(crc: byte, m: seq<byte>): byte
    decreases |m|
  {
    if m == [] then crc else Crc(BitSteps(crc, m[0], 8), m[1..])
  }

  /** `crc8`. The loop counter has 16 bits, so a longer buffer would never end. */
  method Crc8(data: array<byte>, len: nat) returns (crc: byte)
    requires len <= data.Length && len <= 0xffff
    ensures crc == Crc(CRC8INIT, data[..len])
  {
    hide BitStep;
    crc := CRC8INIT;
    var loopCount := 0;
    while loopCount != len
      invariant loopCount <= len
      invariant Crc(CRC8INIT, data[..len]) == Crc(crc, data[loopCount..len])
    {
      var b := data[loopCount];
      var bitCounter := 8;
      ghost var start := crc;
      crc := NextBit(crc, b);
      b := b >> 1;
      bitCounter := bitCounter - 1;
      while bitCounter > 0
        invariant BitSteps(start, data[loopCount], 8) == BitSteps(crc, b, bitCounter)
      {
        crc := NextBit(crc, b);
        b := b >> 1;
        bitCounter := bitCounter - 1;
      }
      assert data[loopCount..len][0] == data[loopCount] && data[loopCount..len][1..] == data[loopCount + 1..len];
      loopCount := loopCount + 1;
    }
  }

  /** The statements of the inner loop. */
  method NextBit(crc0: byte, b: byte) returns (crc: byte)
    ensures crc == BitStep(crc0, b)
  {
    crc := crc0;
    var feedbackBit := (crc ^ b) & 1;
    if feedbackBit == 1 {
      crc := crc ^ CRC8POLY;
    }
    crc := (crc >> 1) & 0x7f;
    if feedbackBit == 1 {
      crc := crc | 0x80;
    }
  }

  // ----- Long division -----

  /** x^8 + x^5 + x^4 + 1 without its leading term. */
  const G: Bits := Zeros(2) + [true, true] + Zeros(3) + [true]
  const POLY: bv16 := 0x8c

  lemma GeneratorValid()
    ensures Generator(G) && |G| == 8 && Parity(G)
  {
    ParityOne(true);
    ParityZeros(2);
    ParityZeros(3);
    assert G == Zeros(2) + [true] + [true] + Zeros(3) + [true];
    ParityConcat(Zeros(2), [true]);
    ParityConcat(Zeros(2) + [true], [true]);
    ParityConcat(Zeros(2) + [true] + [true], Zeros(3));
    ParityConcat(Zeros(2) + [true] + [true] + Zeros(3), [true]);
  }

  function Carry(on: bool): bv16 {
    if on then POLY else 0
  }

  lemma StepOps(crc: byte, b: byte)
    ensures BitStep(crc, b) as bv16
            == Xor16(Shr(crc as bv16), Carry(Has(crc as bv16, 1) != Has(b as bv16, 1)))
  {}

  lemma AtCarry(on: bool, k: nat)
    requires k < 8
    ensures At(Carry(on), k) == (on && G[k])
  {}

  lemma ByteEnd(r: bv16)
    requires r <= 0xff
    ensures !At(r, 8)
  {}

  lemma StepWord(r: bv16, on: bool)
    requires Generator(G) && |G| == 8 && r <= 0xff
    ensures Lsb(Xor16(Shr(r), Carry(on)), 8) == Step(G, Lsb(r, 8), At(r, 0) != on)
  {
    hide At, Carry, Shr, Xor16, G;
    ByteEnd(r);
    forall k: nat | k < 8
      ensures At(Xor16(Shr(r), Carry(on)), k) == ((k < 7 && At(r, k + 1)) != (on && G[k]))
    {
      AtXor(Shr(r), Carry(on), k);
      AtShr(r, k);
      AtCarry(on, k);
    }
  }

  lemma BitStepIsDivision(crc: byte, b: byte)
    requires Generator(G) && |G| == 8
    ensures Lsb(BitStep(crc, b) as bv16, 8) == Step(G, Lsb(crc as bv16, 8), At(b as bv16, 0))
  {
    hide BitStep, Has, Carry, Shr, Xor16, G;
    StepOps(crc, b);
    StepWord(crc as bv16, Has(crc as bv16, 1) != Has(b as bv16, 1));
  }

  lemma NextLow(b: byte, n: nat)
    requires 0 < n <= 8
    ensures Lsb(b as bv16, n) == [At(b as bv16, 0)] + Lsb((b >> 1) as bv16, n - 1)
  {
    hide At, Shr;
    ShiftedByte(b);
    LsbShr(b as bv16, n);
  }

  lemma ShiftedByte(b: byte)
    ensures (b >> 1) as bv16 == Shr(b as bv16)
  {}

  lemma LsbShr(r: bv16, n: nat)
    requires 0 < n <= 8
    ensures Lsb(r, n) == [At(r, 0)] + Lsb(Shr(r), n - 1)
  {
    hide At, Shr;
    var left, right := Lsb(r, n), [At(r, 0)] + Lsb(Shr(r), n - 1);
    forall j | 0 <= j < n ensures left[j] == right[j] {
      if j > 0 {
        AtShr(r, j - 1);
      }
    }
  }

  lemma {:induction false} BitStepsAreDivision(crc: byte, b: byte, n: nat)
    requires Generator(G) && |G| == 8 && n <= 8
    ensures Lsb(BitSteps(crc, b, n) as bv16, 8) == Feed(G, Lsb(crc as bv16, 8), Lsb(b as bv16, n))
    decreases n
  {
    hide BitStep, At, G, Step;
    if n > 0 {
      BitStepIsDivision(crc, b);
      BitStepsAreDivision(BitStep(crc, b), b >> 1, n - 1);
      NextLow(b, n);
      FeedCons(Lsb(crc as bv16, 8), At(b as bv16, 0), Lsb((b >> 1) as bv16, n - 1));
    }
  }

  lemma FeedCons(r: Bits, bit: bool, rest: Bits)
    requires Generator(G) && |r| == |G|
    ensures Feed(G, r, [bit] + rest) == Feed(G, Step(G, r, bit), rest)
  {
    hide Step, G;
    assert ([bit] + rest)[1..] == rest;
  }

  /** `crc8` is bit-by-bit division of the whole message. */
  lemma {:induction false} CrcIsDivision(crc: byte, m: seq<byte>)
    ensures Generator(G) && |G| == 8
    ensures Lsb(Crc(crc, m) as bv16, 8) == Feed(G, Lsb(crc as bv16, 8), LsbBits(m))
    decreases |m|
  {
    GeneratorValid();
    if m != [] {
      hide BitSteps, At, G;
      BitStepsAreDivision(crc, m[0], 8);
      CrcIsDivision(BitSteps(crc, m[0], 8), m[1..]);
      FeedConcat(G, Lsb(crc as bv16, 8), Lsb(m[0] as bv16, 8), LsbBits(m[1..]));
    }
  }

  lemma LsbZero()
    ensures Lsb(0, 8) == Zeros(8)
  {}

  // ----- What the check value means -----

  /** The CRC is the one byte that makes message and byte together a multiple of the generator polynomial. */
  lemma CrcIsRemainder(m: seq<byte>, check: byte)
    ensures MultipleOf(LsbBits(m) + Lsb(check as bv16, 8), G) <==> check == Crc(CRC8INIT, m)
  {
    hide At, G, Crc, MultipleOf;
    CrcIsDivision(CRC8INIT, m);
    LsbZero();
    RemainderUnique(G, LsbBits(m), Lsb(check as bv16, 8));
    LsbInjective(check as bv16, Crc(CRC8INIT, m) as bv16, 8);
  }

  lemma SameCrc(crc: byte, a: seq<byte>, b: seq<byte>)
    ensures Generator(G) && |G| == 8
    ensures Crc(crc, a) == Crc(crc, b)
            <==> Feed(G, Lsb(crc as bv16, 8), LsbBits(a)) == Feed(G, Lsb(crc as bv16, 8), LsbBits(b))
  {
    hide At;
    CrcIsDivision(crc, a);
    CrcIsDivision(crc, b);
    LsbInjective(Crc(crc, a) as bv16, Crc(crc, b) as bv16, 8);
  }

  /** Every error confined to 8 consecutive bits is detected. */
  lemma BurstErrorDetected(crc: byte, a: seq<byte>, b: seq<byte>, at: nat)
    requires |a| == |b| && a != b && DifferOnlyIn(LsbBits(a), LsbBits(b), at, 8)
    ensures Crc(crc, a) != Crc(crc, b)
  {
    SameCrc(crc, a, b);
    if LsbBits(a) == LsbBits(b) {
      LsbBitsInjective(a, b);
    }
    BurstDetected(G, Lsb(crc as bv16, 8), LsbBits(a), LsbBits(b), at);
  }

  /** The parity of the CRC is the parity of the start value and of all message bits. */
  lemma CrcParity(crc: byte, m: seq<byte>)
    ensures Parity(Lsb(Crc(crc, m) as bv16, 8)) == (Parity(Lsb(crc as bv16, 8)) != Parity(LsbBits(m)))
  {
    CrcIsDivision(crc, m);
    GeneratorValid();
    FeedParity(G, Lsb(crc as bv16, 8), LsbBits(m));
  }

  /** Every error that flips an odd number of bits is detected. */
  lemma OddErrorDetected(crc: byte, a: seq<byte>, b: seq<byte>)
    requires |a| == |b| && Parity(Xor(LsbBits(a), LsbBits(b)))
    ensures Crc(crc, a) != Crc(crc, b)
  {
    hide At, Crc, Parity;
    CrcParity(crc, a);
    CrcParity(crc, b);
    ParityXor(LsbBits(a), LsbBits(b));
  }

  /** Appending one byte brings the register to 0 exactly when it is the CRC. */
  lemma AppendedCrc(crc: byte, m: seq<byte>, last: byte)
    ensures Crc(crc, m + [last]) == 0 <==> last == Crc(crc, m)
  {
    hide At;
    CrcIsDivision(crc, m);
    CrcIsDivision(crc, m + [last]);
    LsbBitsConcat(m, [last]);
    OneByteBits(last);
    FeedConcat(G, Lsb(crc as bv16, 8), LsbBits(m), Lsb(last as bv16, 8));
    FeedOwnRegister(G, Lsb(Crc(crc, m) as bv16, 8), Lsb(last as bv16, 8));
    LsbZero();
    LsbInjective(Crc(crc, m + [last]) as bv16, 0, 8);
    LsbInjective(last as bv16, Crc(crc, m) as bv16, 8);
  }

  // ----- Double-bit errors -----

  function Shift(crc: byte): byte {
    BitStep(crc, 0)
  }

  function Shift8(crc: byte): byte {
    Shift(Shift(Shift(Shift(Shift(Shift(Shift(Shift(crc))))))))
  }

  /** The byte p is x^n modulo the generator. */
  ghost predicate IsPower(n: nat, p: byte) {
    Generator(G) && |G| == 8 && Lsb(p as bv16, 8) == XPower(G, n)
  }

  lemma Next(n: nat, p: byte)
    requires IsPower(n, p)
    ensures IsPower(n + 1, Shift(p))
  {
    hide BitStep, At, G, Step;
    BitStepIsDivision(p, 0);
    NoBit();
    RunNext(G, One(8), n);
  }

  lemma NoBit()
    ensures !At(0, 0)
  {}

  lemma Jump(p: byte, n: nat, q: byte)
    requires IsPower(n, p) && q == Shift8(p)
    ensures IsPower(n + 8, q)
  {
    hide IsPower, Shift;
    var p2 := Shift(Shift(p));
    var p4 := Shift(Shift(p2));
    var p6 := Shift(Shift(p4));
    Next(n, p);
    Next(n + 1, Shift(p));
    Next(n + 2, p2);
    Next(n + 3, Shift(p2));
    Next(n + 4, p4);
    Next(n + 5, Shift(p4));
    Next(n + 6, p6);
    Next(n + 7, Shift(p6));
  }

  lemma LowPowers()
    ensures IsPower(0, 0x80) && IsPower(7, 1)
  {
    GeneratorValid();
    assert Lsb(0x80, 8) == One(8);
    XPowerTop(G, 7);
    assert Lsb(1, 8) == Zeros(0) + [true] + Zeros(7);
  }

  /** x^127 is 1. */
  lemma Power127()
    ensures IsPower(127, 0x80)
  {
    hide IsPower;
    LowPowers();
    Jump(0x1, 7, 0x5e);
    Jump(0x5e, 15, 0xc4);
    Jump(0xc4, 23, 0xab);
    Jump(0xab, 31, 0x8f);
    Jump(0x8f, 39, 0xcd);
    Jump(0xcd, 47, 0x37);
    Jump(0x37, 55, 0x3d);
    Jump(0x3d, 63, 0x43);
    Jump(0x43, 71, 0xa4);
    Jump(0xa4, 79, 0xce);
    Jump(0xce, 87, 0xd5);
    Jump(0xd5, 95, 0x68);
    Jump(0x68, 103, 0xa7);
    Jump(0xa7, 111, 0x2c);
    Jump(0x2c, 119, 0x80);
  }

  predicate Sieve(n: nat) {
    n == 0 || ((127 % n == 0 ==> n == 1) && Sieve(n - 1))
  }

  lemma {:induction false} SieveAt(n: nat, d: nat)
    requires Sieve(n) && 0 < d <= n && 127 % d == 0
    ensures d == 1
    decreases n
  {
    if d < n {
      SieveAt(n - 1, d);
    }
  }

  lemma DivisorsOf127(c: nat)
    requires 0 < c < 127 && Divides(c, 127)
    ensures c == 1
  {
    var k: nat :| c * k == 127;
    Factor(127, 12, c, k);
    assert Sieve(11);
    if c < 12 {
      SieveAt(11, c);
    } else {
      SieveAt(11, k);
    }
  }

  lemma KnownPeriods()
    ensures Generator(G) && Period(G, 127) && !Period(G, 1)
  {
    hide At, G;
    GeneratorValid();
    Power127();
    LowPowers();
    XPowerTop(G, 1);
    assert (Zeros(6) + [true] + Zeros(1))[7] != One(8)[7];
  }

  lemma PeriodIs127(d: nat)
    ensures Generator(G)
    ensures Period(G, d) <==> d % 127 == 0
  {
    hide G, Period, Divides;
    KnownPeriods();
    forall c: nat {:trigger Period(G, c)} | 0 < c < 127 && Divides(c, 127)
      ensures !Period(G, c)
    {
      DivisorsOf127(c);
    }
    PrimitivePeriod(G, 127, d);
  }

  /** A double-bit error escapes `crc8` exactly when the two bits are a multiple of 127 bits apart. */
  lemma DoubleErrorMissedBy127(crc: byte, a: seq<byte>, b: seq<byte>, p: nat, q: nat)
    requires |a| == |b| && DifferAtTwo(LsbBits(a), LsbBits(b), p, q)
    ensures Crc(crc, a) == Crc(crc, b) <==> (q - p) % 127 == 0
  {
    hide At, G, Period, Crc;
    SameCrc(crc, a, b);
    DoubleErrorMissed(G, Lsb(crc as bv16, 8), LsbBits(a), LsbBits(b), p, q);
    PeriodIs127(q - p);
  }
}
