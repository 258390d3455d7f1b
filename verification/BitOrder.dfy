/** Bytes and words as bit strings, in the two orders the CRCs use. */
module BitOrder {
  import opened CTypes
  import opened PolyDivision

  function Weight(k: nat): bv16 {
    match k
    case 0 => 1 case 1 => 2 case 2 => 4 case 3 => 8
    case 4 => 0x10 case 5 => 0x20 case 6 => 0x40 case 7 => 0x80
    case 8 => 0x100 case 9 => 0x200 case 10 => 0x400 case 11 => 0x800
    case 12 => 0x1000 case 13 => 0x2000 case 14 => 0x4000 case _ => 0x8000
  }

  predicate Has(r: bv16, w: bv16) {
    r & w != 0
  }

  /** Bit k of a word, bit 0 being the lowest. */
  predicate At(r: bv16, k: nat) {
    Has(r, Weight(k))
  }

  /** The lowest n bits of a word, highest first and lowest first. */
  function Msb(r: bv16, n: nat): (s: Bits)
    ensures |s| == n && forall i :: 0 <= i < n ==> s[i] == At(r, n - 1 - i)
  {
    seq(n, i requires 0 <= i < n => At(r, n - 1 - i))
  }

  function Lsb(r: bv16, n: nat): (s: Bits)
    ensures |s| == n && forall i :: 0 <= i < n ==> s[i] == At(r, i)
  {
    seq(n, i requires 0 <= i < n => At(r, i))
  }

  // ----- Word operations act bit by bit -----
  //
  // C's ^, << and >> on 16-bit words, named so that the proofs below can speak of them without looking inside.

  function Xor16(a: bv16, b: bv16): bv16 { a ^ b }

  function Shl(r: bv16): bv16 { r << 1 }

  function Shr(r: bv16): bv16 { r >> 1 }

  function Up(r: bv16): bv16 { r << 8 }

  function Down(r: bv16): bv16 { r >> 8 }

  lemma MaskXor(a: bv16, b: bv16, c: bv16, w: bv16)
    requires w & (w - 1) == 0 && c == a ^ b
    ensures Has(c, w) == (Has(a, w) != Has(b, w))
  {}

  lemma HasXor(a: bv16, b: bv16, k: nat)
    ensures Has(Xor16(a, b), Weight(k)) == (Has(a, Weight(k)) != Has(b, Weight(k)))
  {
    hide Has;
    MaskXor(a, b, Xor16(a, b), Weight(k));
  }

  lemma AtXor(a: bv16, b: bv16, k: nat)
    ensures At(Xor16(a, b), k) == (At(a, k) != At(b, k))
  {
    hide Has, Xor16, Weight;
    HasXor(a, b, k);
  }

  lemma WordXor(a: bv16, b: bv16, n: nat)
    ensures Msb(Xor16(a, b), n) == Xor(Msb(a, n), Msb(b, n))
    ensures Lsb(Xor16(a, b), n) == Xor(Lsb(a, n), Lsb(b, n))
  {
    hide At, Xor16;
    forall k: nat | k < n ensures At(Xor16(a, b), k) == (At(a, k) != At(b, k)) {
      AtXor(a, b, k);
    }
  }

  lemma WeightStep(k: nat)
    requires 0 < k < 16
    ensures Shr(Weight(k)) == Weight(k - 1) && Shl(Weight(k - 1)) == Weight(k)
  {}

  lemma WeightByte(k: nat)
    requires k < 8
    ensures Up(Weight(k)) == Weight(k + 8) && Weight(k) <= 0x80
  {}

  lemma ShiftMask(r: bv16, w: bv16)
    ensures Has(Shl(r), w) == Has(r, Shr(w))
    ensures Has(Shr(r), w) == Has(r, Shl(w))
  {}

  lemma ByteMask(r: bv16, w: bv16)
    requires w <= 0x80
    ensures Has(Down(r), w) == Has(r, Up(w)) && !Has(Down(r), Up(w))
    ensures Has(Up(r), Up(w)) == Has(r, w) && !Has(Up(r), w)
  {}

  lemma AtEnds(r: bv16)
    ensures !At(Shl(r), 0) && !At(Shr(r), 15)
  {}

  lemma AtShl(r: bv16, k: nat)
    requires k < 16
    ensures At(Shl(r), k) == (k > 0 && At(r, k - 1))
  {
    hide Has, Shl, Shr, Weight;
    AtEnds(r);
    if k > 0 {
      WeightStep(k);
      ShiftMask(r, Weight(k));
    }
  }

  lemma AtShr(r: bv16, k: nat)
    requires k < 16
    ensures At(Shr(r), k) == (k < 15 && At(r, k + 1))
  {
    hide Has, Shl, Shr, Weight;
    AtEnds(r);
    if k < 15 {
      WeightStep(k + 1);
      ShiftMask(r, Weight(k));
    }
  }

  lemma AtByteShift(r: bv16, k: nat)
    requires k < 8
    ensures At(Down(r), k) == At(r, k + 8) && !At(Down(r), k + 8)
    ensures At(Up(r), k + 8) == At(r, k) && !At(Up(r), k)
  {
    hide Has, Up, Down, Weight;
    WeightByte(k);
    ByteMask(r, Weight(k));
  }

  lemma MsbUp(r: bv16)
    ensures Msb(Up(r), 16) == Msb(r, 8) + Zeros(8)
    ensures Msb(r, 16) == Msb(Down(r), 8) + Msb(r, 8)
  {
    hide At, Up, Down;
    forall k: nat | k < 8
      ensures At(Down(r), k) == At(r, k + 8) && At(Up(r), k + 8) == At(r, k) && !At(Up(r), k)
    {
      AtByteShift(r, k);
    }
    assert forall k: nat :: 8 <= k < 16 ==> At(Up(r), k) == At(Up(r), (k - 8) + 8) && At(r, k) == At(r, (k - 8) + 8);
  }

  lemma LsbDown(r: bv16)
    ensures Lsb(Down(r), 16) == Lsb(Down(r), 8) + Zeros(8)
    ensures Lsb(r, 16) == Lsb(r, 8) + Lsb(Down(r), 8)
  {
    hide At, Down;
    var d := Down(r);
    forall i | 0 <= i < 16
      ensures Lsb(d, 16)[i] == (Lsb(d, 8) + Zeros(8))[i] && Lsb(r, 16)[i] == (Lsb(r, 8) + Lsb(d, 8))[i]
    {
      if i >= 8 {
        AtByteShift(r, i - 8);
      }
    }
  }

  function Low(r: bv16): bv16 { r & 0xff }

  lemma LowMask(r: bv16, w: bv16)
    requires w <= 0x80
    ensures Has(Low(r), w) == Has(r, w) && !Has(Low(r), Up(w))
  {}

  lemma AtLow(r: bv16, k: nat)
    requires k < 8
    ensures At(Low(r), k) == At(r, k) && !At(Low(r), k + 8)
  {
    hide Has, Low, Up, Weight;
    WeightByte(k);
    LowMask(r, Weight(k));
  }

  lemma LsbLow(r: bv16)
    ensures Lsb(Low(r), 16) == Lsb(r, 8) + Zeros(8)
  {
    hide At, Low;
    forall i | 0 <= i < 16 ensures Lsb(Low(r), 16)[i] == (Lsb(r, 8) + Zeros(8))[i] {
      AtLow(r, if i < 8 then i else i - 8);
    }
  }

  lemma SomeBit(c: bv16) returns (k: nat)
    requires c != 0
    ensures k < 16 && At(c, k) && (c <= 0xff ==> k < 8)
  {
    k := if c & 0xff != 0 then
           if c & 0xf != 0 then
             if c & 3 != 0 then (if c & 1 != 0 then 0 else 1) else (if c & 4 != 0 then 2 else 3)
           else
             if c & 0x30 != 0 then (if c & 0x10 != 0 then 4 else 5) else (if c & 0x40 != 0 then 6 else 7)
         else
           if c & 0xf00 != 0 then
             if c & 0x300 != 0 then (if c & 0x100 != 0 then 8 else 9) else (if c & 0x400 != 0 then 10 else 11)
           else
             if c & 0x3000 != 0 then (if c & 0x1000 != 0 then 12 else 13) else (if c & 0x4000 != 0 then 14 else 15);
  }

  lemma SomeDifference(a: bv16, b: bv16) returns (k: nat)
    requires a != b
    ensures k < 16 && At(a, k) != At(b, k)
    ensures a <= 0xff && b <= 0xff ==> k < 8
  {
    XorSmall(a, b);
    hide At, Xor16;
    k := SomeBit(Xor16(a, b));
    AtXor(a, b, k);
  }

  lemma XorSmall(a: bv16, b: bv16)
    requires a != b
    ensures Xor16(a, b) != 0
    ensures a <= 0xff && b <= 0xff ==> Xor16(a, b) <= 0xff
  {}

  /** A word, or a byte held in a word, is determined by its bits in either order. */
  lemma MsbInjective(a: bv16, b: bv16, n: nat)
    requires n == 16 || (n == 8 && a <= 0xff && b <= 0xff)
    ensures Msb(a, n) == Msb(b, n) ==> a == b
  {
    if a != b {
      var k := SomeDifference(a, b);
      assert Msb(a, n)[n - 1 - k] != Msb(b, n)[n - 1 - k];
    }
  }

  lemma LsbInjective(a: bv16, b: bv16, n: nat)
    requires n == 16 || (n == 8 && a <= 0xff && b <= 0xff)
    ensures Lsb(a, n) == Lsb(b, n) ==> a == b
  {
    if a != b {
      var k := SomeDifference(a, b);
      assert Lsb(a, n)[k] != Lsb(b, n)[k];
    }
  }

  // ----- Messages -----

  /** The bits of a message in transmission order, high bit of each byte first. */
  function MsbBits(m: seq<byte>): (s: Bits)
    ensures |s| == 8 * |m|
  {
    if m == [] then [] else Msb(m[0] as bv16, 8) + MsbBits(m[1..])
  }

  /** The bits of a message in transmission order, low bit of each byte first. */
  function LsbBits(m: seq<byte>): (s: Bits)
    ensures |s| == 8 * |m|
  {
    if m == [] then [] else Lsb(m[0] as bv16, 8) + LsbBits(m[1..])
  }

  lemma {:induction false} MsbBitsInjective(a: seq<byte>, b: seq<byte>)
    requires |a| == |b| && MsbBits(a) == MsbBits(b)
    ensures a == b
  {
    if a != [] {
      assert Msb(a[0] as bv16, 8) == MsbBits(a)[..8] == MsbBits(b)[..8] == Msb(b[0] as bv16, 8);
      assert MsbBits(a[1..]) == MsbBits(a)[8..] == MsbBits(b)[8..] == MsbBits(b[1..]);
      MsbInjective(a[0] as bv16, b[0] as bv16, 8);
      MsbBitsInjective(a[1..], b[1..]);
    }
  }

  lemma {:induction false} LsbBitsInjective(a: seq<byte>, b: seq<byte>)
    requires |a| == |b| && LsbBits(a) == LsbBits(b)
    ensures a == b
  {
    if a != [] {
      assert Lsb(a[0] as bv16, 8) == LsbBits(a)[..8] == LsbBits(b)[..8] == Lsb(b[0] as bv16, 8);
      assert LsbBits(a[1..]) == LsbBits(a)[8..] == LsbBits(b)[8..] == LsbBits(b[1..]);
      LsbInjective(a[0] as bv16, b[0] as bv16, 8);
      LsbBitsInjective(a[1..], b[1..]);
    }
  }

  lemma {:induction false} MsbBitsConcat(a: seq<byte>, b: seq<byte>)
    ensures MsbBits(a + b) == MsbBits(a) + MsbBits(b)
  {
    if a == [] {
      assert a + b == b;
    } else {
      assert (a + b)[1..] == a[1..] + b;
      MsbBitsConcat(a[1..], b);
    }
  }

  lemma {:induction false} LsbBitsConcat(a: seq<byte>, b: seq<byte>)
    ensures LsbBits(a + b) == LsbBits(a) + LsbBits(b)
  {
    if a == [] {
      assert a + b == b;
    } else {
      assert (a + b)[1..] == a[1..] + b;
      LsbBitsConcat(a[1..], b);
    }
  }

  function Pair(hi: byte, lo: byte): bv16 {
    ((hi as bv16) << 8) | lo as bv16
  }

  lemma PairMask(hi: byte, lo: byte, w: bv16)
    requires w <= 0x80
    ensures Down(Pair(hi, lo)) == hi as bv16 && Has(Pair(hi, lo), w) == Has(lo as bv16, w)
  {}

  lemma AtPair(hi: byte, lo: byte, k: nat)
    requires k < 8
    ensures At(Pair(hi, lo), k) == At(lo as bv16, k)
  {
    hide Has, Pair, Down, Weight;
    WeightByte(k);
    PairMask(hi, lo, Weight(k));
  }

  lemma OneByteBits(b: byte)
    ensures MsbBits([b]) == Msb(b as bv16, 8) && LsbBits([b]) == Lsb(b as bv16, 8)
  {
    assert [b][1..] == [];
    assert MsbBits([b][1..]) == [] && LsbBits([b][1..]) == [];
  }

  lemma PairBits(hi: byte, lo: byte)
    ensures Msb(Pair(hi, lo), 16) == MsbBits([hi, lo])
    ensures Lsb(Pair(hi, lo), 16) == LsbBits([lo, hi])
  {
    hide At, Pair, Down;
    var w := Pair(hi, lo);
    PairMask(hi, lo, 1);
    MsbUp(w);
    LsbDown(w);
    assert Msb(w, 8) == Msb(lo as bv16, 8) && Lsb(w, 8) == Lsb(lo as bv16, 8) by {
      forall i | 0 <= i < 8
        ensures Msb(w, 8)[i] == Msb(lo as bv16, 8)[i] && Lsb(w, 8)[i] == Lsb(lo as bv16, 8)[i]
      {
        AtPair(hi, lo, i);
        AtPair(hi, lo, 7 - i);
      }
    }
    assert [hi, lo] == [hi] + [lo] && [lo, hi] == [lo] + [hi];
    MsbBitsConcat([hi], [lo]);
    LsbBitsConcat([lo], [hi]);
    OneByteBits(hi);
    OneByteBits(lo);
  }

  // ----- Mirror images -----

  function Rev16(r: bv16): bv16 {
    var a := ((r & 0x5555) << 1) | ((r >> 1) & 0x5555);
    var b := ((a & 0x3333) << 2) | ((a >> 2) & 0x3333);
    var c := ((b & 0x0f0f) << 4) | ((b >> 4) & 0x0f0f);
    (c << 8) | (c >> 8)
  }

  function Rev8(b: byte): byte {
    (Rev16(b as bv16) >> 8) as byte
  }

  function RevBytes(m: seq<byte>): (s: seq<byte>)
    ensures |s| == |m|
  {
    seq(|m|, i requires 0 <= i < |m| => Rev8(m[i]))
  }

  lemma Rev16Low(r: bv16)
    ensures (Rev16(r) & 1 != 0) == (r & 0x8000 != 0) && (Rev16(r) & 2 != 0) == (r & 0x4000 != 0)
    ensures (Rev16(r) & 4 != 0) == (r & 0x2000 != 0) && (Rev16(r) & 8 != 0) == (r & 0x1000 != 0)
    ensures (Rev16(r) & 0x10 != 0) == (r & 0x800 != 0) && (Rev16(r) & 0x20 != 0) == (r & 0x400 != 0)
    ensures (Rev16(r) & 0x40 != 0) == (r & 0x200 != 0) && (Rev16(r) & 0x80 != 0) == (r & 0x100 != 0)
  {}

  lemma Rev16Involution(r: bv16)
    ensures Rev16(Rev16(r)) == r
  {}

  lemma AtRev16(r: bv16, k: nat)
    requires k < 16
    ensures At(Rev16(r), k) == At(r, 15 - k)
  {
    if k < 8 {
      Rev16Low(r);
    } else {
      Rev16Low(Rev16(r));
      Rev16Involution(r);
    }
  }

  lemma MirrorWord(r: bv16)
    ensures Lsb(Rev16(r), 16) == Msb(r, 16)
  {
    hide At, Rev16;
    forall k: nat | k < 16 ensures At(Rev16(r), k) == At(r, 15 - k) {
      AtRev16(r, k);
    }
  }

  lemma MirrorByte(b: byte)
    ensures Lsb(Rev8(b) as bv16, 8) == Msb(b as bv16, 8)
  {
    var w := b as bv16;
    assert Rev8(b) as bv16 == Down(Rev16(w));
    MirrorLow(w);
  }

  lemma MirrorLow(w: bv16)
    ensures Lsb(Down(Rev16(w)), 8) == Msb(w, 8)
  {
    hide At, Down, Rev16;
    forall k: nat | k < 8 ensures At(Down(Rev16(w)), k) == At(w, 7 - k) {
      AtByteShift(Rev16(w), k);
      AtRev16(w, k + 8);
    }
  }

  lemma {:induction false} MirrorBytes(m: seq<byte>)
    ensures LsbBits(RevBytes(m)) == MsbBits(m)
  {
    if m != [] {
      MirrorByte(m[0]);
      MirrorBytes(m[1..]);
      assert RevBytes(m)[1..] == RevBytes(m[1..]);
    }
  }

  // ----- Table rows -----

  /** One line of eight table entries, chosen by the low three bits of the index. */
  function Pick(i: byte, a: bv16, b: bv16, c: bv16, d: bv16, e: bv16, f: bv16, g: bv16, h: bv16): bv16 {
    if i & 4 == 0 then
      if i & 2 == 0 then (if i & 1 == 0 then a else b) else (if i & 1 == 0 then c else d)
    else
      if i & 2 == 0 then (if i & 1 == 0 then e else f) else (if i & 1 == 0 then g else h)
  }
}
