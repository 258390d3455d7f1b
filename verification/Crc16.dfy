/** The XMODEM CRC: table driven, high bit first (bertos/algo/crc.c, bertos/algo/crc.h). */
module Crc16 {
  import opened CTypes
  import opened PolyDivision
  import opened BitOrder

  const INIT_VAL: bv16 := 0

  // `crc16tab`, eight lines of eight entries at a time.

  function Tab0(i: byte): bv16 {
    var line := i >> 3;
    if line == 0x00 then Pick(i, 0x0000, 0x1021, 0x2042, 0x3063, 0x4084, 0x50a5, 0x60c6, 0x70e7)
    else if line == 0x01 then Pick(i, 0x8108, 0x9129, 0xa14a, 0xb16b, 0xc18c, 0xd1ad, 0xe1ce, 0xf1ef)
    else if line == 0x02 then Pick(i, 0x1231, 0x0210, 0x3273, 0x2252, 0x52b5, 0x4294, 0x72f7, 0x62d6)
    else if line == 0x03 then Pick(i, 0x9339, 0x8318, 0xb37b, 0xa35a, 0xd3bd, 0xc39c, 0xf3ff, 0xe3de)
    else if line == 0x04 then Pick(i, 0x2462, 0x3443, 0x0420, 0x1401, 0x64e6, 0x74c7, 0x44a4, 0x5485)
    else if line == 0x05 then Pick(i, 0xa56a, 0xb54b, 0x8528, 0x9509, 0xe5ee, 0xf5cf, 0xc5ac, 0xd58d)
    else if line == 0x06 then Pick(i, 0x3653, 0x2672, 0x1611, 0x0630, 0x76d7, 0x66f6, 0x5695, 0x46b4)
    else Pick(i, 0xb75b, 0xa77a, 0x9719, 0x8738, 0xf7df, 0xe7fe, 0xd79d, 0xc7bc)
  }

  function Tab1(i: byte): bv16 {
    var line := i >> 3;
    if line == 0x08 then Pick(i, 0x48c4, 0x58e5, 0x6886, 0x78a7, 0x0840, 0x1861, 0x2802, 0x3823)
    else if line == 0x09 then Pick(i, 0xc9cc, 0xd9ed, 0xe98e, 0xf9af, 0x8948, 0x9969, 0xa90a, 0xb92b)
    else if line == 0x0a then Pick(i, 0x5af5, 0x4ad4, 0x7ab7, 0x6a96, 0x1a71, 0x0a50, 0x3a33, 0x2a12)
    else if line == 0x0b then Pick(i, 0xdbfd, 0xcbdc, 0xfbbf, 0xeb9e, 0x9b79, 0x8b58, 0xbb3b, 0xab1a)
    else if line == 0x0c then Pick(i, 0x6ca6, 0x7c87, 0x4ce4, 0x5cc5, 0x2c22, 0x3c03, 0x0c60, 0x1c41)
    else if line == 0x0d then Pick(i, 0xedae, 0xfd8f, 0xcdec, 0xddcd, 0xad2a, 0xbd0b, 0x8d68, 0x9d49)
    else if line == 0x0e then Pick(i, 0x7e97, 0x6eb6, 0x5ed5, 0x4ef4, 0x3e13, 0x2e32, 0x1e51, 0x0e70)
    else Pick(i, 0xff9f, 0xefbe, 0xdfdd, 0xcffc, 0xbf1b, 0xaf3a, 0x9f59, 0x8f78)
  }

  function Tab2(i: byte): bv16 {
    var line := i >> 3;
    if line == 0x10 then Pick(i, 0x9188, 0x81a9, 0xb1ca, 0xa1eb, 0xd10c, 0xc12d, 0xf14e, 0xe16f)
    else if line == 0x11 then Pick(i, 0x1080, 0x00a1, 0x30c2, 0x20e3, 0x5004, 0x4025, 0x7046, 0x6067)
    else if line == 0x12 then Pick(i, 0x83b9, 0x9398, 0xa3fb, 0xb3da, 0xc33d, 0xd31c, 0xe37f, 0xf35e)
    else if line == 0x13 then Pick(i, 0x02b1, 0x1290, 0x22f3, 0x32d2, 0x4235, 0x5214, 0x6277, 0x7256)
    else if line == 0x14 then Pick(i, 0xb5ea, 0xa5cb, 0x95a8, 0x8589, 0xf56e, 0xe54f, 0xd52c, 0xc50d)
    else if line == 0x15 then Pick(i, 0x34e2, 0x24c3, 0x14a0, 0x0481, 0x7466, 0x6447, 0x5424, 0x4405)
    else if line == 0x16 then Pick(i, 0xa7db, 0xb7fa, 0x8799, 0x97b8, 0xe75f, 0xf77e, 0xc71d, 0xd73c)
    else Pick(i, 0x26d3, 0x36f2, 0x0691, 0x16b0, 0x6657, 0x7676, 0x4615, 0x5634)
  }

  function Tab3(i: byte): bv16 {
    var line := i >> 3;
    if line == 0x18 then Pick(i, 0xd94c, 0xc96d, 0xf90e, 0xe92f, 0x99c8, 0x89e9, 0xb98a, 0xa9ab)
    else if line == 0x19 then Pick(i, 0x5844, 0x4865, 0x7806, 0x6827, 0x18c0, 0x08e1, 0x3882, 0x28a3)
    else if line == 0x1a then Pick(i, 0xcb7d, 0xdb5c, 0xeb3f, 0xfb1e, 0x8bf9, 0x9bd8, 0xabbb, 0xbb9a)
    else if line == 0x1b then Pick(i, 0x4a75, 0x5a54, 0x6a37, 0x7a16, 0x0af1, 0x1ad0, 0x2ab3, 0x3a92)
    else if line == 0x1c then Pick(i, 0xfd2e, 0xed0f, 0xdd6c, 0xcd4d, 0xbdaa, 0xad8b, 0x9de8, 0x8dc9)
    else if line == 0x1d then Pick(i, 0x7c26, 0x6c07, 0x5c64, 0x4c45, 0x3ca2, 0x2c83, 0x1ce0, 0x0cc1)
    else if line == 0x1e then Pick(i, 0xef1f, 0xff3e, 0xcf5d, 0xdf7c, 0xaf9b, 0xbfba, 0x8fd9, 0x9ff8)
    else Pick(i, 0x6e17, 0x7e36, 0x4e55, 0x5e74, 0x2e93, 0x3eb2, 0x0ed1, 0x1ef0)
  }

  /** `crc16tab`. */
  function Tab(i: byte): bv16 {
    if i < 0x40 then Tab0(i) else if i < 0x80 then Tab1(i) else if i < 0xc0 then Tab2(i) else Tab3(i)
  }

  function Index(c: byte, oldcrc: bv16): byte {
    ((oldcrc >> 8) ^ c as bv16) as byte
  }

  /** `updcrc16`: the register after one more octet. */
  function UpdCrc16(c: byte, oldcrc: bv16): bv16 {
    Xor16(Tab(Index(c, oldcrc)), Up(oldcrc))
  }

  /** The register after a whole message. */
  function Crc(crc: bv16, m: seq<byte>): bv16
    decreases |m|
  {
    if m == [] then crc else Crc(UpdCrc16(m[0], crc), m[1..])
  }

  /** `crc16`. */
  method Crc16(crc: bv16, buffer: array<byte>, len: nat) returns (r: bv16)
    requires len <= buffer.Length
    ensures r == Crc(crc, buffer[..len])
  {
    r := crc;
    var buf, n := 0, len;
    while n > 0
      invariant buf + n == len
      invariant Crc(crc, buffer[..len]) == Crc(r, buffer[buf..len])
    {
      assert buffer[buf..len][0] == buffer[buf] && buffer[buf..len][1..] == buffer[buf + 1..len];
      n := n - 1;
      r := UpdCrc16(buffer[buf], r);
      buf := buf + 1;
    }
  }

  // ----- The table holds eight division steps -----

  /** x^16 + x^12 + x^5 + 1 without its leading term. */
  const POLY: bv16 := 0x1021
  const G: Bits := Zeros(3) + [true] + Zeros(6) + [true] + Zeros(4) + [true]

  lemma GeneratorValid()
    ensures Generator(G) && |G| == 16 && Parity(G)
  {
    ParityOne(true);
    ParityZeros(3);
    ParityZeros(6);
    ParityZeros(4);
    ParityConcat(Zeros(3), [true]);
    ParityConcat(Zeros(3) + [true], Zeros(6));
    ParityConcat(Zeros(3) + [true] + Zeros(6), [true]);
    ParityConcat(Zeros(3) + [true] + Zeros(6) + [true], Zeros(4));
    ParityConcat(Zeros(3) + [true] + Zeros(6) + [true] + Zeros(4), [true]);
  }

  function Carry(r: bv16): bv16 {
    if r & 0x8000 == 0 then 0 else POLY
  }

  function Shift(r: bv16): bv16 {
    Xor16(Shl(r), Carry(r))
  }

  function Shift8(r: bv16): bv16 {
    Shift(Shift(Shift(Shift(Shift(Shift(Shift(Shift(r))))))))
  }

  lemma Lines0(i: byte, r: bv16)
    requires i < 0x40 && r == Up(i as bv16)
    ensures Tab0(i) == Shift8(r)
  {
    var s := Shift(Shift(Shift(Shift(r))));
    assert Shift8(r) == Shift(Shift(Shift(Shift(s))));
  }

  lemma Lines1(i: byte, r: bv16)
    requires 0x40 <= i < 0x80 && r == Up(i as bv16)
    ensures Tab1(i) == Shift8(r)
  {
    var s := Shift(Shift(Shift(Shift(r))));
    assert Shift8(r) == Shift(Shift(Shift(Shift(s))));
  }

  lemma Lines2(i: byte, r: bv16)
    requires 0x80 <= i < 0xc0 && r == Up(i as bv16)
    ensures Tab2(i) == Shift8(r)
  {
    var s := Shift(Shift(Shift(Shift(r))));
    assert Shift8(r) == Shift(Shift(Shift(Shift(s))));
  }

  lemma Lines3(i: byte, r: bv16)
    requires 0xc0 <= i && r == Up(i as bv16)
    ensures Tab3(i) == Shift8(r)
  {
    var s := Shift(Shift(Shift(Shift(r))));
    assert Shift8(r) == Shift(Shift(Shift(Shift(s))));
  }

  lemma TableIsEightShifts(i: byte)
    ensures Tab(i) == Shift8(Up(i as bv16))
  {
    hide Tab0, Tab1, Tab2, Tab3, Shift8;
    if i < 0x40 {
      Lines0(i, Up(i as bv16));
    } else if i < 0x80 {
      Lines1(i, Up(i as bv16));
    } else if i < 0xc0 {
      Lines2(i, Up(i as bv16));
    } else {
      Lines3(i, Up(i as bv16));
    }
  }

  lemma AtCarry(r: bv16, k: nat)
    requires k < 16
    ensures At(Carry(r), k) == (At(r, 15) && G[15 - k])
  {}

  lemma ShiftIsStep(r: bv16)
    requires Generator(G) && |G| == 16
    ensures Msb(Shift(r), 16) == Step(G, Msb(r, 16), false)
  {
    hide At, Carry, Shl, Xor16;
    forall k: nat | k < 16
      ensures At(Shift(r), k) == ((k > 0 && At(r, k - 1)) != (At(r, 15) && G[15 - k]))
    {
      AtXor(Shl(r), Carry(r), k);
      AtShl(r, k);
      AtCarry(r, k);
    }
  }

  function Shifts(r: bv16, n: nat): bv16
    decreases n
  {
    if n == 0 then r else Shifts(Shift(r), n - 1)
  }

  lemma {:induction false} ShiftsAreRun(r: bv16, n: nat)
    requires Generator(G) && |G| == 16
    ensures Msb(Shifts(r, n), 16) == Run(G, Msb(r, 16), n)
    decreases n
  {
    hide Shift, Step, At, G;
    if n > 0 {
      ShiftIsStep(r);
      ShiftsAreRun(Shift(r), n - 1);
    }
  }

  lemma EightShifts(r: bv16)
    ensures Shift8(r) == Shifts(r, 8)
  {
    hide Shift;
    var s := Shift(Shift(Shift(Shift(r))));
    assert Shifts(s, 2) == Shift(Shift(s));
    assert Shifts(s, 4) == Shift8(r);
    assert Shifts(r, 6) == Shifts(Shift(Shift(r)), 4);
  }

  /** One table step of `updcrc16` is eight steps of long division by the generator. */
  lemma UpdIsDivision(c: byte, oldcrc: bv16)
    ensures Generator(G) && |G| == 16
    ensures Msb(UpdCrc16(c, oldcrc), 16) == Feed(G, Msb(oldcrc, 16), Msb(c as bv16, 8))
  {
    GeneratorValid();
    var i := Index(c, oldcrc);
    IndexBits(c, oldcrc);
    TableIsEightShifts(i);
    EightShifts(Up(i as bv16));
    ShiftsAreRun(Up(i as bv16), 8);
    TableStep(c as bv16, oldcrc, i as bv16, Tab(i));
  }

  lemma IndexBits(c: byte, oldcrc: bv16)
    ensures Index(c, oldcrc) as bv16 == Xor16(Down(oldcrc), c as bv16)
  {}

  lemma TableStep(c: bv16, oldcrc: bv16, i: bv16, t: bv16)
    requires Generator(G) && |G| == 16
    requires i == Xor16(Down(oldcrc), c) && Msb(t, 16) == Run(G, Msb(Up(i), 16), 8)
    ensures Msb(Xor16(t, Up(oldcrc)), 16) == Feed(G, Msb(oldcrc, 16), Msb(c, 8))
  {
    hide Xor16, Up, Down, At;
    WordXor(Down(oldcrc), c, 8);
    WordXor(t, Up(oldcrc), 16);
    MsbUp(i);
    MsbUp(oldcrc);
    FeedByTable(G, Msb(Down(oldcrc), 8), Msb(oldcrc, 8), Msb(c, 8));
  }

  /** `crc16` is bit-by-bit division of the whole message, for every message and start value. */
  lemma {:induction false} CrcIsDivision(crc: bv16, m: seq<byte>)
    ensures Generator(G) && |G| == 16
    ensures Msb(Crc(crc, m), 16) == Feed(G, Msb(crc, 16), MsbBits(m))
    decreases |m|
  {
    GeneratorValid();
    if m != [] {
      hide UpdCrc16;
      UpdIsDivision(m[0], crc);
      CrcIsDivision(UpdCrc16(m[0], crc), m[1..]);
      FeedConcat(G, Msb(crc, 16), Msb(m[0] as bv16, 8), MsbBits(m[1..]));
    }
  }

  lemma MsbZero()
    ensures Msb(0, 16) == Zeros(16)
  {}

  // ----- What the check value means -----

  /** From the documented start value the CRC is the one 16-bit word that makes message and word together
      a multiple of the generator polynomial. */
  lemma CrcIsRemainder(m: seq<byte>, check: bv16)
    ensures MultipleOf(MsbBits(m) + Msb(check, 16), G) <==> check == Crc(INIT_VAL, m)
  {
    CrcIsDivision(INIT_VAL, m);
    MsbZero();
    RemainderUnique(G, MsbBits(m), Msb(check, 16));
    MsbInjective(check, Crc(INIT_VAL, m), 16);
  }

  lemma SameCrc(crc: bv16, a: seq<byte>, b: seq<byte>)
    ensures Generator(G) && |G| == 16
    ensures Crc(crc, a) == Crc(crc, b)
            <==> Feed(G, Msb(crc, 16), MsbBits(a)) == Feed(G, Msb(crc, 16), MsbBits(b))
  {
    CrcIsDivision(crc, a);
    CrcIsDivision(crc, b);
    MsbInjective(Crc(crc, a), Crc(crc, b), 16);
  }

  /** Every error confined to 16 consecutive bits is detected. */
  lemma BurstErrorDetected(crc: bv16, a: seq<byte>, b: seq<byte>, at: nat)
    requires |a| == |b| && a != b && DifferOnlyIn(MsbBits(a), MsbBits(b), at, 16)
    ensures Crc(crc, a) != Crc(crc, b)
  {
    SameCrc(crc, a, b);
    if MsbBits(a) == MsbBits(b) {
      MsbBitsInjective(a, b);
    }
    BurstDetected(G, Msb(crc, 16), MsbBits(a), MsbBits(b), at);
  }

  /** The parity of the CRC is the parity of the start value and of all message bits. */
  lemma CrcParity(crc: bv16, m: seq<byte>)
    ensures Parity(Msb(Crc(crc, m), 16)) == (Parity(Msb(crc, 16)) != Parity(MsbBits(m)))
  {
    CrcIsDivision(crc, m);
    GeneratorValid();
    FeedParity(G, Msb(crc, 16), MsbBits(m));
  }

  /** Every error that flips an odd number of bits is detected. */
  lemma OddErrorDetected(crc: bv16, a: seq<byte>, b: seq<byte>)
    requires |a| == |b| && Parity(Xor(MsbBits(a), MsbBits(b)))
    ensures Crc(crc, a) != Crc(crc, b)
  {
    CrcParity(crc, a);
    CrcParity(crc, b);
    ParityXor(MsbBits(a), MsbBits(b));
  }

  /** Appending two bytes brings the register to 0 exactly when they are the CRC, high byte first. */
  lemma AppendedCrc(crc: bv16, m: seq<byte>, hi: byte, lo: byte)
    ensures Crc(crc, m + [hi, lo]) == 0 <==> Pair(hi, lo) == Crc(crc, m)
  {
    hide At, Pair;
    var w := Pair(hi, lo);
    CrcIsDivision(crc, m);
    CrcIsDivision(crc, m + [hi, lo]);
    MsbBitsConcat(m, [hi, lo]);
    PairBits(hi, lo);
    FeedConcat(G, Msb(crc, 16), MsbBits(m), Msb(w, 16));
    FeedOwnRegister(G, Msb(Crc(crc, m), 16), Msb(w, 16));
    MsbZero();
    MsbInjective(Crc(crc, m + [hi, lo]), 0, 16);
    MsbInjective(w, Crc(crc, m), 16);
  }
}
