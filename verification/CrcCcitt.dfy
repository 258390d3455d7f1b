/** The CCITT CRC: table driven, low bit first (bertos/algo/crc_ccitt.c, bertos/algo/crc_ccitt.h). */
module CrcCcitt {
  import opened CTypes
  import opened PolyDivision
  import opened PolyPeriod
  import opened BitOrder
  import Crc16
  import CrcPeriod

  const INIT_VAL: bv16 := 0xffff

  // `crc_ccitt_tab`, eight lines of eight entries at a time.

  function Tab0(i: byte): bv16 {
    var line := i >> 3;
    if line == 0x00 then Pick(i, 0x0000, 0x1189, 0x2312, 0x329b, 0x4624, 0x57ad, 0x6536, 0x74bf)
    else if line == 0x01 then Pick(i, 0x8c48, 0x9dc1, 0xaf5a, 0xbed3, 0xca6c, 0xdbe5, 0xe97e, 0xf8f7)
    else if line == 0x02 then Pick(i, 0x1081, 0x0108, 0x3393, 0x221a, 0x56a5, 0x472c, 0x75b7, 0x643e)
    else if line == 0x03 then Pick(i, 0x9cc9, 0x8d40, 0xbfdb, 0xae52, 0xdaed, 0xcb64, 0xf9ff, 0xe876)
    else if line == 0x04 then Pick(i, 0x2102, 0x308b, 0x0210, 0x1399, 0x6726, 0x76af, 0x4434, 0x55bd)
    else if line == 0x05 then Pick(i, 0xad4a, 0xbcc3, 0x8e58, 0x9fd1, 0xeb6e, 0xfae7, 0xc87c, 0xd9f5)
    else if line == 0x06 then Pick(i, 0x3183, 0x200a, 0x1291, 0x0318, 0x77a7, 0x662e, 0x54b5, 0x453c)
    else Pick(i, 0xbdcb, 0xac42, 0x9ed9, 0x8f50, 0xfbef, 0xea66, 0xd8fd, 0xc974)
  }

  function Tab1(i: byte): bv16 {
    var line := i >> 3;
    if line == 0x08 then Pick(i, 0x4204, 0x538d, 0x6116, 0x709f, 0x0420, 0x15a9, 0x2732, 0x36bb)
    else if line == 0x09 then Pick(i, 0xce4c, 0xdfc5, 0xed5e, 0xfcd7, 0x8868, 0x99e1, 0xab7a, 0xbaf3)
    else if line == 0x0a then Pick(i, 0x5285, 0x430c, 0x7197, 0x601e, 0x14a1, 0x0528, 0x37b3, 0x263a)
    else if line == 0x0b then Pick(i, 0xdecd, 0xcf44, 0xfddf, 0xec56, 0x98e9, 0x8960, 0xbbfb, 0xaa72)
    else if line == 0x0c then Pick(i, 0x6306, 0x728f, 0x4014, 0x519d, 0x2522, 0x34ab, 0x0630, 0x17b9)
    else if line == 0x0d then Pick(i, 0xef4e, 0xfec7, 0xcc5c, 0xddd5, 0xa96a, 0xb8e3, 0x8a78, 0x9bf1)
    else if line == 0x0e then Pick(i, 0x7387, 0x620e, 0x5095, 0x411c, 0x35a3, 0x242a, 0x16b1, 0x0738)
    else Pick(i, 0xffcf, 0xee46, 0xdcdd, 0xcd54, 0xb9eb, 0xa862, 0x9af9, 0x8b70)
  }

  function Tab2(i: byte): bv16 {
    var line := i >> 3;
    if line == 0x10 then Pick(i, 0x8408, 0x9581, 0xa71a, 0xb693, 0xc22c, 0xd3a5, 0xe13e, 0xf0b7)
    else if line == 0x11 then Pick(i, 0x0840, 0x19c9, 0x2b52, 0x3adb, 0x4e64, 0x5fed, 0x6d76, 0x7cff)
    else if line == 0x12 then Pick(i, 0x9489, 0x8500, 0xb79b, 0xa612, 0xd2ad, 0xc324, 0xf1bf, 0xe036)
    else if line == 0x13 then Pick(i, 0x18c1, 0x0948, 0x3bd3, 0x2a5a, 0x5ee5, 0x4f6c, 0x7df7, 0x6c7e)
    else if line == 0x14 then Pick(i, 0xa50a, 0xb483, 0x8618, 0x9791, 0xe32e, 0xf2a7, 0xc03c, 0xd1b5)
    else if line == 0x15 then Pick(i, 0x2942, 0x38cb, 0x0a50, 0x1bd9, 0x6f66, 0x7eef, 0x4c74, 0x5dfd)
    else if line == 0x16 then Pick(i, 0xb58b, 0xa402, 0x9699, 0x8710, 0xf3af, 0xe226, 0xd0bd, 0xc134)
    else Pick(i, 0x39c3, 0x284a, 0x1ad1, 0x0b58, 0x7fe7, 0x6e6e, 0x5cf5, 0x4d7c)
  }

  function Tab3(i: byte): bv16 {
    var line := i >> 3;
    if line == 0x18 then Pick(i, 0xc60c, 0xd785, 0xe51e, 0xf497, 0x8028, 0x91a1, 0xa33a, 0xb2b3)
    else if line == 0x19 then Pick(i, 0x4a44, 0x5bcd, 0x6956, 0x78df, 0x0c60, 0x1de9, 0x2f72, 0x3efb)
    else if line == 0x1a then Pick(i, 0xd68d, 0xc704, 0xf59f, 0xe416, 0x90a9, 0x8120, 0xb3bb, 0xa232)
    else if line == 0x1b then Pick(i, 0x5ac5, 0x4b4c, 0x79d7, 0x685e, 0x1ce1, 0x0d68, 0x3ff3, 0x2e7a)
    else if line == 0x1c then Pick(i, 0xe70e, 0xf687, 0xc41c, 0xd595, 0xa12a, 0xb0a3, 0x8238, 0x93b1)
    else if line == 0x1d then Pick(i, 0x6b46, 0x7acf, 0x4854, 0x59dd, 0x2d62, 0x3ceb, 0x0e70, 0x1ff9)
    else if line == 0x1e then Pick(i, 0xf78f, 0xe606, 0xd49d, 0xc514, 0xb1ab, 0xa022, 0x92b9, 0x8330)
    else Pick(i, 0x7bc7, 0x6a4e, 0x58d5, 0x495c, 0x3de3, 0x2c6a, 0x1ef1, 0x0f78)
  }

  /** `crc_ccitt_tab`. */
  function Tab(i: byte): bv16 {
    if i < 0x40 then Tab0(i) else if i < 0x80 then Tab1(i) else if i < 0xc0 then Tab2(i) else Tab3(i)
  }

  function Index(c: byte, oldcrc: bv16): byte {
    ((oldcrc ^ c as bv16) & 0xff) as byte
  }

  /** `updcrc_ccitt`: the register after one more octet. */
  function UpdCrcCcitt(c: byte, oldcrc: bv16): bv16 {
    Xor16(Down(oldcrc), Tab(Index(c, oldcrc)))
  }

  /** The register after a whole message. */
  function Crc(crc: bv16, m: seq<byte>): bv16
    decreases |m|
  {
    if m == [] then crc else Crc(UpdCrcCcitt(m[0], crc), m[1..])
  }

  /** `crc_ccitt`. */
  method CrcCcitt(crc: bv16, buffer: array<byte>, len: nat) returns (r: bv16)
    requires len <= buffer.Length
    ensures r == Crc(crc, buffer[..len])
  {
    r := crc;
    var buf, n := 0, len;
    while n > 0
      invariant buf + n == len
      invariant Crc(crc, buffer[..len]) == Crc(r, buffer[buf..len])
    {
      assert buffer[buf..len][0] == buffer[buf] && buffer[buf..len][1..] == buffer[buf + 1..len];
      n := n - 1;
      r := UpdCrcCcitt(buffer[buf], r);
      buf := buf + 1;
    }
  }

  // ----- The table holds eight division steps -----

  /** The generator of `crc16`, written low bit first. */
  const POLY: bv16 := 0x8408
  const G: Bits := Crc16.G

  function Carry(r: bv16): bv16 {
    if r & 1 == 0 then 0 else POLY
  }

  function Shift(r: bv16): bv16 {
    Xor16(Shr(r), Carry(r))
  }

  function Shift8(r: bv16): bv16 {
    Shift(Shift(Shift(Shift(Shift(Shift(Shift(Shift(r))))))))
  }

  lemma Lines0(i: byte, r: bv16)
    requires i < 0x40 && r == i as bv16
    ensures Tab0(i) == Shift8(r)
  {
    var s := Shift(Shift(Shift(Shift(r))));
    assert Shift8(r) == Shift(Shift(Shift(Shift(s))));
  }

  lemma Lines1(i: byte, r: bv16)
    requires 0x40 <= i < 0x80 && r == i as bv16
    ensures Tab1(i) == Shift8(r)
  {
    var s := Shift(Shift(Shift(Shift(r))));
    assert Shift8(r) == Shift(Shift(Shift(Shift(s))));
  }

  lemma Lines2(i: byte, r: bv16)
    requires 0x80 <= i < 0xc0 && r == i as bv16
    ensures Tab2(i) == Shift8(r)
  {
    var s := Shift(Shift(Shift(Shift(r))));
    assert Shift8(r) == Shift(Shift(Shift(Shift(s))));
  }

  lemma Lines3(i: byte, r: bv16)
    requires 0xc0 <= i && r == i as bv16
    ensures Tab3(i) == Shift8(r)
  {
    var s := Shift(Shift(Shift(Shift(r))));
    assert Shift8(r) == Shift(Shift(Shift(Shift(s))));
  }

  lemma TableIsEightShifts(i: byte)
    ensures Tab(i) == Shift8(i as bv16)
  {
    hide Tab0, Tab1, Tab2, Tab3, Shift8;
    if i < 0x40 {
      Lines0(i, i as bv16);
    } else if i < 0x80 {
      Lines1(i, i as bv16);
    } else if i < 0xc0 {
      Lines2(i, i as bv16);
    } else {
      Lines3(i, i as bv16);
    }
  }

  lemma AtCarry(r: bv16, k: nat)
    requires k < 16
    ensures At(Carry(r), k) == (At(r, 0) && G[k])
  {}

  lemma ShiftIsStep(r: bv16)
    requires Generator(G) && |G| == 16
    ensures Lsb(Shift(r), 16) == Step(G, Lsb(r, 16), false)
  {
    hide At, Carry, Shr, Xor16;
    forall k: nat | k < 16
      ensures At(Shift(r), k) == ((k < 15 && At(r, k + 1)) != (At(r, 0) && G[k]))
    {
      AtXor(Shr(r), Carry(r), k);
      AtShr(r, k);
      AtCarry(r, k);
    }
  }

  function Shifts(r: bv16, n: nat): bv16
    decreases n
  {
    if n == 0 then r else Shifts(Shift(r), n - 1)
  }

  lemma {:induction false} ShiftsAreRun(r: bv16, n: nat)
    requires Generator(G) && |G| == 16
    ensures Lsb(Shifts(r, n), 16) == Run(G, Lsb(r, 16), n)
    decreases n
  {
    hide Shift, Step, At, G;
    if n > 0 {
      ShiftIsStep(r);
      ShiftsAreRun(Shift(r), n - 1);
    }
  }

  lemma EightShifts(r: bv16)
    ensures Shift8(r) == Shifts(r, 8)
  {
    hide Shift;
    var s := Shift(Shift(Shift(Shift(r))));
    assert Shifts(s, 2) == Shift(Shift(s));
    assert Shifts(s, 4) == Shift8(r);
    assert Shifts(r, 6) == Shifts(Shift(Shift(r)), 4);
  }

  lemma IndexBits(c: byte, oldcrc: bv16)
    ensures Index(c, oldcrc) as bv16 == Low(Xor16(oldcrc, c as bv16))
  {}

  lemma TableStep(c: bv16, oldcrc: bv16, i: bv16, t: bv16)
    requires Generator(G) && |G| == 16
    requires i == Low(Xor16(oldcrc, c)) && Lsb(t, 16) == Run(G, Lsb(i, 16), 8)
    ensures Lsb(Xor16(Down(oldcrc), t), 16) == Feed(G, Lsb(oldcrc, 16), Lsb(c, 8))
  {
    hide Xor16, Low, Down, At;
    WordXor(oldcrc, c, 8);
    WordXor(Down(oldcrc), t, 16);
    LsbLow(Xor16(oldcrc, c));
    LsbDown(oldcrc);
    FeedByTable(G, Lsb(oldcrc, 8), Lsb(Down(oldcrc), 8), Lsb(c, 8));
  }

  /** One table step of `updcrc_ccitt` is eight steps of long division by the generator. */
  lemma UpdIsDivision(c: byte, oldcrc: bv16)
    ensures Generator(G) && |G| == 16
    ensures Lsb(UpdCrcCcitt(c, oldcrc), 16) == Feed(G, Lsb(oldcrc, 16), Lsb(c as bv16, 8))
  {
    Crc16.GeneratorValid();
    var i := Index(c, oldcrc);
    IndexBits(c, oldcrc);
    TableIsEightShifts(i);
    EightShifts(i as bv16);
    ShiftsAreRun(i as bv16, 8);
    TableStep(c as bv16, oldcrc, i as bv16, Tab(i));
  }

  /** `crc_ccitt` is bit-by-bit division of the whole message, for every message and start value. */
  lemma {:induction false} CrcIsDivision(crc: bv16, m: seq<byte>)
    ensures Generator(G) && |G| == 16
    ensures Lsb(Crc(crc, m), 16) == Feed(G, Lsb(crc, 16), LsbBits(m))
    decreases |m|
  {
    Crc16.GeneratorValid();
    if m != [] {
      hide UpdCrcCcitt;
      UpdIsDivision(m[0], crc);
      CrcIsDivision(UpdCrcCcitt(m[0], crc), m[1..]);
      FeedConcat(G, Lsb(crc, 16), Lsb(m[0] as bv16, 8), LsbBits(m[1..]));
    }
  }

  lemma LsbZero()
    ensures Lsb(0, 16) == Zeros(16)
  {}

  // ----- What the check value means -----

  /** For every message and start value, the CRC is the one word that makes message and word together a multiple
      of the generator polynomial, after the start value has been added to their first 16 bits. With 0xFFFF, that
      complements them. */
  lemma CrcIsRemainder(crc: bv16, m: seq<byte>, check: bv16)
    ensures var s := LsbBits(m) + Lsb(check, 16);
            MultipleOf(Xor(s[..16], Lsb(crc, 16)) + s[16..], G) <==> check == Crc(crc, m)
  {
    hide At, MultipleOf;
    var s, start := LsbBits(m) + Lsb(check, 16), Lsb(crc, 16);
    var first, rest := s[..16], s[16..];
    assert s == first + rest;
    CrcIsDivision(crc, m);
    StartUpFront(G, start, first, rest);
    MultipleLeavesZero(G, Xor(first, start) + rest);
    FeedConcat(G, start, LsbBits(m), Lsb(check, 16));
    FeedOwnRegister(G, Feed(G, start, LsbBits(m)), Lsb(check, 16));
    LsbInjective(check, Crc(crc, m), 16);
  }

  lemma SameCrc(crc: bv16, a: seq<byte>, b: seq<byte>)
    ensures Generator(G) && |G| == 16
    ensures Crc(crc, a) == Crc(crc, b)
            <==> Feed(G, Lsb(crc, 16), LsbBits(a)) == Feed(G, Lsb(crc, 16), LsbBits(b))
  {
    CrcIsDivision(crc, a);
    CrcIsDivision(crc, b);
    LsbInjective(Crc(crc, a), Crc(crc, b), 16);
  }

  /** Every error confined to 16 consecutive bits is detected. */
  lemma BurstErrorDetected(crc: bv16, a: seq<byte>, b: seq<byte>, at: nat)
    requires |a| == |b| && a != b && DifferOnlyIn(LsbBits(a), LsbBits(b), at, 16)
    ensures Crc(crc, a) != Crc(crc, b)
  {
    SameCrc(crc, a, b);
    if LsbBits(a) == LsbBits(b) {
      LsbBitsInjective(a, b);
    }
    BurstDetected(G, Lsb(crc, 16), LsbBits(a), LsbBits(b), at);
  }

  /** A double-bit error escapes exactly when the two bits are a multiple of 32767 bits apart. */
  lemma DoubleErrorMissedBy32767(crc: bv16, a: seq<byte>, b: seq<byte>, p: nat, q: nat)
    requires |a| == |b| && DifferAtTwo(LsbBits(a), LsbBits(b), p, q)
    ensures Crc(crc, a) == Crc(crc, b) <==> (q - p) % 32767 == 0
  {
    hide At, Crc16.G, Period, Crc;
    SameCrc(crc, a, b);
    DoubleErrorMissed(G, Lsb(crc, 16), LsbBits(a), LsbBits(b), p, q);
    CrcPeriod.PeriodIs32767(q - p);
  }

  /** The parity of the CRC is the parity of the start value and of all message bits. */
  lemma CrcParity(crc: bv16, m: seq<byte>)
    ensures Parity(Lsb(Crc(crc, m), 16)) == (Parity(Lsb(crc, 16)) != Parity(LsbBits(m)))
  {
    CrcIsDivision(crc, m);
    Crc16.GeneratorValid();
    FeedParity(G, Lsb(crc, 16), LsbBits(m));
  }

  /** Every error that flips an odd number of bits is detected. */
  lemma OddErrorDetected(crc: bv16, a: seq<byte>, b: seq<byte>)
    requires |a| == |b| && Parity(Xor(LsbBits(a), LsbBits(b)))
    ensures Crc(crc, a) != Crc(crc, b)
  {
    CrcParity(crc, a);
    CrcParity(crc, b);
    ParityXor(LsbBits(a), LsbBits(b));
  }

  /** Two more bytes, low byte first, are XORed into the register and shifted through it. */
  lemma AppendPair(crc: bv16, m: seq<byte>, hi: byte, lo: byte)
    ensures Generator(G) && |G| == 16
    ensures Lsb(Crc(crc, m + [lo, hi]), 16) == Run(G, Lsb(Xor16(Crc(crc, m), Pair(hi, lo)), 16), 16)
  {
    hide At, Pair, Xor16;
    var r, w := Crc(crc, m), Pair(hi, lo);
    CrcIsDivision(crc, m);
    CrcIsDivision(crc, m + [lo, hi]);
    LsbBitsConcat(m, [lo, hi]);
    PairBits(hi, lo);
    FeedConcat(G, Lsb(crc, 16), LsbBits(m), Lsb(w, 16));
    FeedUpFront(G, Lsb(r, 16), Lsb(w, 16), 0);
    assert Lsb(w, 16) + Zeros(0) == Lsb(w, 16);
    WordXor(r, w, 16);
  }

  lemma RunDecides(x: bv16, y: bv16)
    requires Generator(G) && |G| == 16
    ensures Run(G, Lsb(x, 16), 16) == Run(G, Lsb(y, 16), 16) <==> x == y
  {
    LsbInjective(x, y, 16);
    if Lsb(x, 16) != Lsb(y, 16) {
      RunInjective(G, Lsb(x, 16), Lsb(y, 16), 16);
    }
  }

  function Complement(r: bv16): bv16 { 0xffff ^ r }

  lemma XorZero(r: bv16, w: bv16, x: bv16)
    requires x == r ^ w
    ensures x == 0 <==> w == r
  {}

  lemma XorOnes(r: bv16, w: bv16)
    requires r ^ w == 0xffff
    ensures w == 0xffff ^ r
  {}

  lemma OnesXor(r: bv16)
    ensures Xor16(r, Complement(r)) == 0xffff
  {}

  lemma XorWords(r: bv16, w: bv16)
    ensures Xor16(r, w) == 0 <==> w == r
    ensures Xor16(r, w) == 0xffff <==> w == Complement(r)
  {
    XorZero(r, w, Xor16(r, w));
    OnesXor(r);
    if Xor16(r, w) == 0xffff {
      XorOnes(r, w);
    }
  }

  /** Appending two bytes brings the register to 0 exactly when they are the CRC, low byte first. */
  lemma AppendedCrc(crc: bv16, m: seq<byte>, hi: byte, lo: byte)
    ensures Crc(crc, m + [lo, hi]) == 0 <==> Pair(hi, lo) == Crc(crc, m)
  {
    hide At, Pair, Xor16;
    AppendPair(crc, m, hi, lo);
    RunDecides(Xor16(Crc(crc, m), Pair(hi, lo)), 0);
    LsbZero();
    RunClear(G, 16);
    XorWords(Crc(crc, m), Pair(hi, lo));
    LsbInjective(Crc(crc, m + [lo, hi]), 0, 16);
  }

  lemma SixteenShifts()
    ensures Shift8(Shift8(0xffff)) == 0xf0b8
  {}

  /** Appending two bytes brings the register to 0xF0B8 exactly when they are the complement of the CRC,
      low byte first: the good frame check of RFC 1662, appendix C.2. */
  lemma AppendedComplement(crc: bv16, m: seq<byte>, hi: byte, lo: byte)
    ensures Crc(crc, m + [lo, hi]) == 0xf0b8 <==> Pair(hi, lo) == Complement(Crc(crc, m))
  {
    hide At, Pair, Xor16, Shift8, Complement;
    AppendPair(crc, m, hi, lo);
    RunDecides(Xor16(Crc(crc, m), Pair(hi, lo)), 0xffff);
    SixteenShifts();
    EightShifts(0xffff);
    EightShifts(Shift8(0xffff));
    ShiftsAreRun(0xffff, 8);
    ShiftsAreRun(Shift8(0xffff), 8);
    RunAdd(G, Lsb(0xffff, 16), 8, 8);
    XorWords(Crc(crc, m), Pair(hi, lo));
    LsbInjective(Crc(crc, m + [lo, hi]), 0xf0b8, 16);
  }

  /** The two 16-bit CRCs are mirror images of each other. */
  lemma MirrorOfCrc16(crc: bv16, m: seq<byte>)
    ensures Rev16(Crc16.Crc(crc, m)) == Crc(Rev16(crc), RevBytes(m))
  {
    hide At, Rev16, Rev8;
    Crc16.CrcIsDivision(crc, m);
    CrcIsDivision(Rev16(crc), RevBytes(m));
    MirrorWord(crc);
    MirrorWord(Crc16.Crc(crc, m));
    MirrorBytes(m);
    LsbInjective(Rev16(Crc16.Crc(crc, m)), Crc(Rev16(crc), RevBytes(m)), 16);
  }
}
