/** Words in memory and the conversions between byte orders (bertos/cpu/byteorder.h). */
module ByteOrder {

  import opened CTypes

  type word = bv32

  datatype Endian = LittleEndian | BigEndian

  // ----- The macros -----

  function Rotr8(x: word): word { (x >> 8) | (x << 24) }

  function Rotl8(x: word): word { (x << 8) | (x >> 24) }

  /** SWAB32, from two rotations. */
  function Swab32(x: word): word {
    (Rotr8(x) & 0xFF00_FF00) | (Rotl8(x) & 0x00FF_00FF)
  }

  /** `cpu_to_le32`, which is also `le32_to_cpu`. */
  function CpuToLe32(cpu: Endian, x: word): word {
    match cpu
    case LittleEndian => x
    case BigEndian => Swab32(x)
  }

  function Le32ToCpu(cpu: Endian, x: word): word {
    CpuToLe32(cpu, x)
  }

  /** `cpu_to_be32`, which is also `be32_to_cpu`. */
  function CpuToBe32(cpu: Endian, x: word): word {
    match cpu
    case LittleEndian => Swab32(x)
    case BigEndian => x
  }

  // ----- Words in memory -----

  /** The word that four bytes stand for, first byte lowest. */
  function Word(b0: byte, b1: byte, b2: byte, b3: byte): word {
    (b0 as word) | ((b1 as word) << 8) | ((b2 as word) << 16) | ((b3 as word) << 24)
  }

  /** Byte k of a word, byte 0 being the lowest. */
  function Byte(x: word, k: nat): byte
    requires k < 4
  {
    match k
    case 0 => (x & 0xFF) as byte
    case 1 => ((x >> 8) & 0xFF) as byte
    case 2 => ((x >> 16) & 0xFF) as byte
    case 3 => (x >> 24) as byte
  }

  /** What a processor reads at an address, and the bytes it writes there. */
  function Load(cpu: Endian, m: seq<byte>): word
    requires |m| == 4
  {
    match cpu
    case LittleEndian => Word(m[0], m[1], m[2], m[3])
    case BigEndian => Word(m[3], m[2], m[1], m[0])
  }

  function Store(cpu: Endian, x: word): (m: seq<byte>)
    ensures |m| == 4
  {
    match cpu
    case LittleEndian => [Byte(x, 0), Byte(x, 1), Byte(x, 2), Byte(x, 3)]
    case BigEndian => [Byte(x, 3), Byte(x, 2), Byte(x, 1), Byte(x, 0)]
  }

  lemma SwabTwice(x: word)
    ensures Swab32(Swab32(x)) == x
  {}

  lemma SwabWord(b0: byte, b1: byte, b2: byte, b3: byte)
    ensures Swab32(Word(b0, b1, b2, b3)) == Word(b3, b2, b1, b0)
  {}

  lemma SwabByte(x: word)
    ensures Byte(Swab32(x), 0) == Byte(x, 3) && Byte(Swab32(x), 1) == Byte(x, 2)
    ensures Byte(Swab32(x), 2) == Byte(x, 1) && Byte(Swab32(x), 3) == Byte(x, 0)
  {}

  lemma WordOfBytes(x: word)
    ensures Word(Byte(x, 0), Byte(x, 1), Byte(x, 2), Byte(x, 3)) == x
  {}

  lemma BytesOfWord(b0: byte, b1: byte, b2: byte, b3: byte)
    ensures var x := Word(b0, b1, b2, b3);
            Byte(x, 0) == b0 && Byte(x, 1) == b1 && Byte(x, 2) == b2 && Byte(x, 3) == b3
  {}

  /** The conversions undo each other, on either processor, and one of the two orders is the processor's own. */
  lemma ConversionsInvert(cpu: Endian, x: word)
    ensures Le32ToCpu(cpu, CpuToLe32(cpu, x)) == x && CpuToLe32(cpu, Le32ToCpu(cpu, x)) == x
    ensures CpuToBe32(cpu, CpuToBe32(cpu, x)) == x
    ensures CpuToBe32(cpu, x) == Swab32(CpuToLe32(cpu, x))
  {
    hide Swab32;
    SwabTwice(x);
  }

  /** Reading gives back what was written. */
  lemma LoadStore(cpu: Endian, x: word)
    ensures Load(cpu, Store(cpu, x)) == x
  {
    hide Word, Byte;
    WordOfBytes(x);
  }

  lemma StoreLoad(cpu: Endian, m: seq<byte>)
    requires |m| == 4
    ensures Store(cpu, Load(cpu, m)) == m
  {
    hide Word, Byte;
    BytesOfWord(m[0], m[1], m[2], m[3]);
    BytesOfWord(m[3], m[2], m[1], m[0]);
  }

  /** The converted word has the same meaning in memory on either processor. */
  lemma LoadIsLittleEndian(cpu: Endian, m: seq<byte>)
    requires |m| == 4
    ensures CpuToLe32(cpu, Load(cpu, m)) == Load(LittleEndian, m)
    ensures CpuToBe32(cpu, Load(cpu, m)) == Load(BigEndian, m)
  {
    hide Word, Swab32;
    SwabWord(m[0], m[1], m[2], m[3]);
    SwabWord(m[3], m[2], m[1], m[0]);
  }

  lemma StoreIsLittleEndian(cpu: Endian, x: word)
    ensures Store(cpu, Le32ToCpu(cpu, x)) == Store(LittleEndian, x)
    ensures Store(cpu, CpuToBe32(cpu, x)) == Store(BigEndian, x)
  {
    hide Byte, Swab32;
    SwabByte(x);
  }
}
