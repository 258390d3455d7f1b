/** The Tiny Encryption Algorithm (bertos/algo/tea.c, tea.h). */
module Tea {
  import opened ByteOrder
  import opened CTypes

  const ROUNDS := 32
  const DELTA: word := 0x9E37_79B9

  datatype Block = Block(y: word, z: word)
  datatype Key = Key(k0: word, k1: word, k2: word, k3: word)

  // C's operations on 32-bit words, which wrap around.

  function Add(a: word, b: word): word { a + b }

  function Sub(a: word, b: word): word { a - b }

  /** `tea_func`, with two words of the key in register order. */
  function TeaFunc(x: word, sum: word, ka: word, kb: word): word {
    ((x << 4) + ka) ^ (x + sum) ^ ((x >> 5) + kb)
  }

  lemma Difference(a: word, b: word, c: word)
    requires c == a + b
    ensures Sub(c, b) == (a + b) - b
  {}

  lemma Total(a: word, b: word, c: word)
    requires c == a - b
    ensures Add(c, b) == (a - b) + b
  {}

  lemma AddThenSub(a: word, b: word)
    ensures Sub(Add(a, b), b) == a
  {
    hide Sub;
    Difference(a, b, Add(a, b));
  }

  lemma SubThenAdd(a: word, b: word)
    ensures Add(Sub(a, b), b) == a
  {
    hide Add;
    Total(a, b, Sub(a, b));
  }

  lemma AddSub(a: word, b: word)
    ensures Sub(Add(a, b), b) == a && Add(Sub(a, b), b) == a
  {
    hide Add, Sub;
    AddThenSub(a, b);
    SubThenAdd(a, b);
  }

  /** With the other two terms made zero, each part of the key meets its own shift. */
  lemma KeyMeetsShift(x: word, ka: word, kb: word)
    ensures TeaFunc(x, 0 - x, 0 - (x << 4), kb) == (x >> 5) + kb
    ensures TeaFunc(x, 0 - x, ka, 0 - (x >> 5)) == (x << 4) + ka
  {}

  /** With both shifted terms made zero, the sum is added to the input. */
  lemma SumMeetsInput(x: word, sum: word)
    ensures TeaFunc(x, sum, 0 - (x << 4), 0 - (x >> 5)) == x + sum
  {}

  // ----- Rounds -----

  function Round(k: Key, b: Block, sum: word): Block {
    var y := Add(b.y, TeaFunc(b.z, sum, k.k0, k.k1));
    Block(y, Add(b.z, TeaFunc(y, sum, k.k2, k.k3)))
  }

  function Unround(k: Key, b: Block, sum: word): Block {
    var z := Sub(b.z, TeaFunc(b.y, sum, k.k2, k.k3));
    Block(Sub(b.y, TeaFunc(z, sum, k.k0, k.k1)), z)
  }

  lemma RoundInverts(k: Key, b: Block, sum: word)
    ensures Unround(k, Round(k, b, sum), sum) == b && Round(k, Unround(k, b, sum), sum) == b
  {
    hide Add, Sub, TeaFunc;
    var r, u := Round(k, b, sum), Unround(k, b, sum);
    AddSub(b.y, TeaFunc(b.z, sum, k.k0, k.k1));
    AddSub(b.z, TeaFunc(r.y, sum, k.k2, k.k3));
    AddSub(b.z, TeaFunc(b.y, sum, k.k2, k.k3));
    AddSub(b.y, TeaFunc(u.z, sum, k.k0, k.k1));
  }

  /** The sum after n rounds. */
  function Sum(n: nat): word {
    if n == 0 then 0 else Add(Sum(n - 1), DELTA)
  }

  /** n rounds of encryption; round i uses the sum after i additions. */
  function Encrypt(k: Key, b: Block, n: nat): Block {
    if n == 0 then b else Round(k, Encrypt(k, b, n - 1), Sum(n))
  }

  /** n rounds of decryption, from the last round's sum down. */
  function Decrypt(k: Key, b: Block, n: nat): Block
    decreases n
  {
    if n == 0 then b else Decrypt(k, Unround(k, b, Sum(n)), n - 1)
  }

  /** Decryption undoes encryption, for every key, block and number of rounds. */
  lemma {:induction false} DecryptEncrypt(k: Key, b: Block, n: nat)
    ensures Decrypt(k, Encrypt(k, b, n), n) == b
  {
    if n > 0 {
      RoundInverts(k, Encrypt(k, b, n - 1), Sum(n));
      DecryptEncrypt(k, b, n - 1);
    }
  }

  lemma {:induction false} EncryptDecrypt(k: Key, b: Block, n: nat)
    ensures Encrypt(k, Decrypt(k, b, n), n) == b
    decreases n
  {
    if n > 0 {
      var u := Unround(k, b, Sum(n));
      EncryptDecrypt(k, u, n - 1);
      RoundInverts(k, b, Sum(n));
    }
  }

  /** DELTA * ROUNDS in 32 bits. */
  const LAST_SUM: word := 0xC6EF_3720

  lemma LastSum()
    ensures Sum(ROUNDS) == LAST_SUM
  {
    assert Sum(8) == 0xF1BB_CDC8;
    assert Sum(16) == 0xE377_9B90;
    assert Sum(24) == 0xD533_6958;
  }

  lemma SumBack(n: nat)
    requires n > 0
    ensures Sub(Sum(n), DELTA) == Sum(n - 1)
  {
    AddSub(Sum(n - 1), DELTA);
  }

  lemma KnownAnswerHalfway()
    ensures Encrypt(Key(0, 0, 0, 0), Block(0, 0), 16) == Block(0xA889_F798, 0x182D_8083)
  {
    var k, b := Key(0, 0, 0, 0), Block(0, 0);
    assert Encrypt(k, b, 4) == Block(0x420A_1097, 0xBEC5_A929);
    assert Encrypt(k, b, 8) == Block(0xED28_5DA1, 0x455B_33C1);
    assert Encrypt(k, b, 12) == Block(0x39B4_B21B, 0xE032_5966);
  }

  /** The published answer for a block and a key of zeros. */
  lemma KnownAnswer()
    ensures Encrypt(Key(0, 0, 0, 0), Block(0, 0), 32) == Block(0x41EA_3A0A, 0x94BA_A940)
  {
    var k, b := Key(0, 0, 0, 0), Block(0, 0);
    KnownAnswerHalfway();
    assert Sum(8) == 0xF1BB_CDC8;
    assert Sum(16) == 0xE377_9B90;
    assert Sum(24) == 0xD533_6958;
    assert Encrypt(k, b, 20) == Block(0x4231_F59F, 0xFFF8_2958);
    assert Encrypt(k, b, 24) == Block(0x2AB2_3274, 0xF046_037B);
    assert Encrypt(k, b, 28) == Block(0x546C_3C69, 0x096A_4D61);
  }

  // ----- Bytes -----

  function BlockOf(v: seq<byte>): Block
    requires |v| == 8
  {
    Block(Load(LittleEndian, v[..4]), Load(LittleEndian, v[4..]))
  }

  function BytesOf(b: Block): (v: seq<byte>)
    ensures |v| == 8
  {
    Store(LittleEndian, b.y) + Store(LittleEndian, b.z)
  }

  function KeyOf(k: seq<byte>): Key
    requires |k| == 16
  {
    Key(Load(LittleEndian, k[..4]), Load(LittleEndian, k[4..8]),
        Load(LittleEndian, k[8..12]), Load(LittleEndian, k[12..]))
  }

  lemma BlockBytes(b: Block)
    ensures BlockOf(BytesOf(b)) == b
  {
    LoadStore(LittleEndian, b.y);
    LoadStore(LittleEndian, b.z);
    assert BytesOf(b)[..4] == Store(LittleEndian, b.y) && BytesOf(b)[4..] == Store(LittleEndian, b.z);
  }

  lemma BytesBlock(v: seq<byte>)
    requires |v| == 8
    ensures BytesOf(BlockOf(v)) == v
  {
    StoreLoad(LittleEndian, v[..4]);
    StoreLoad(LittleEndian, v[4..]);
  }

  function EncryptBytes(v: seq<byte>, k: seq<byte>): (r: seq<byte>)
    requires |v| == 8 && |k| == 16
    ensures |r| == 8
  {
    BytesOf(Encrypt(KeyOf(k), BlockOf(v), ROUNDS))
  }

  function DecryptBytes(v: seq<byte>, k: seq<byte>): (r: seq<byte>)
    requires |v| == 8 && |k| == 16
    ensures |r| == 8
  {
    BytesOf(Decrypt(KeyOf(k), BlockOf(v), ROUNDS))
  }

  /** On the bytes of a block, decryption and encryption undo each other. */
  lemma BytesRoundTrip(v: seq<byte>, k: seq<byte>)
    requires |v| == 8 && |k| == 16
    ensures DecryptBytes(EncryptBytes(v, k), k) == v
    ensures EncryptBytes(DecryptBytes(v, k), k) == v
  {
    hide BytesOf, BlockOf, KeyOf, Encrypt, Decrypt;
    var key, b := KeyOf(k), BlockOf(v);
    BytesBlock(v);
    BlockBytes(Encrypt(key, b, ROUNDS));
    BlockBytes(Decrypt(key, b, ROUNDS));
    DecryptEncrypt(key, b, ROUNDS);
    EncryptDecrypt(key, b, ROUNDS);
  }

  // ----- One block, byte by byte -----

  const KEY_BYTES: seq<byte> := [
    0x00, 0x11, 0x22, 0x33, 0x44, 0x55, 0x66, 0x77,
    0x88, 0x99, 0xaa, 0xbb, 0xcc, 0xdd, 0xee, 0xff]
  const PLAIN_BYTES: seq<byte> := [0x01, 0x23, 0x45, 0x67, 0x89, 0xab, 0xcd, 0xef]

  const KEY := Key(0x3322_1100, 0x7766_5544, 0xBBAA_9988, 0xFFEE_DDCC)
  const PLAIN := Block(0x6745_2301, 0xEFCD_AB89)

  lemma RoundsTo16()
    ensures Encrypt(KEY, PLAIN, 16) == Block(0x983C_FB3A, 0x229B_6F49)
  {
    var k, b := KEY, PLAIN;
    assert Encrypt(k, b, 4) == Block(0x1CD6_1AF3, 0xBE42_DB0D);
    assert Encrypt(k, b, 8) == Block(0x59C7_8A66, 0xFDC1_FDDD);
    assert Encrypt(k, b, 12) == Block(0xA6AC_A1FB, 0xE89B_1D72);
  }

  lemma RoundsTo32()
    ensures Encrypt(KEY, PLAIN, 32) == Block(0xC739_03D6, 0x86B1_0A76)
  {
    var k, b := KEY, PLAIN;
    RoundsTo16();
    assert Sum(8) == 0xF1BB_CDC8;
    assert Sum(16) == 0xE377_9B90;
    assert Sum(24) == 0xD533_6958;
    assert Encrypt(k, b, 20) == Block(0x7780_3774, 0xADED_779C);
    assert Encrypt(k, b, 24) == Block(0x77CE_367B, 0x9BC4_012B);
    assert Encrypt(k, b, 28) == Block(0xB296_1C1A, 0x301F_9CBF);
  }

  lemma KnownWords()
    ensures KeyOf(KEY_BYTES) == KEY && BlockOf(PLAIN_BYTES) == PLAIN
    ensures BytesOf(Block(0xC739_03D6, 0x86B1_0A76)) == [0xd6, 0x03, 0x39, 0xc7, 0x76, 0x0a, 0xb1, 0x86]
  {
    assert KEY_BYTES[..4] == [0x00, 0x11, 0x22, 0x33];
    assert KEY_BYTES[4..8] == [0x44, 0x55, 0x66, 0x77];
    assert KEY_BYTES[8..12] == [0x88, 0x99, 0xaa, 0xbb];
    assert KEY_BYTES[12..] == [0xcc, 0xdd, 0xee, 0xff];
    assert PLAIN_BYTES[..4] == [0x01, 0x23, 0x45, 0x67];
    assert PLAIN_BYTES[4..] == [0x89, 0xab, 0xcd, 0xef];
  }

  /** A key whose bytes all differ: the order of its words, of the bytes in a word, and of the rounds. */
  lemma KnownBytes()
    ensures EncryptBytes(PLAIN_BYTES, KEY_BYTES) == [0xd6, 0x03, 0x39, 0xc7, 0x76, 0x0a, 0xb1, 0x86]
  {
    hide Encrypt, KeyOf, BlockOf, BytesOf;
    KnownWords();
    RoundsTo32();
  }

  // ----- The program -----

  /** `tea_func`, which converts the words of the key each time it is called. */
  method Mix(cpu: Endian, x: word, sum: word, k: array<byte>, at: nat) returns (r: word)
    requires at + 8 <= k.Length
    ensures r == TeaFunc(x, sum, Load(LittleEndian, k[at..at + 4]), Load(LittleEndian, k[at + 4..at + 8]))
  {
    hide Load, CpuToLe32, CpuToBe32, TeaFunc;
    LoadIsLittleEndian(cpu, k[at..at + 4]);
    LoadIsLittleEndian(cpu, k[at + 4..at + 8]);
    r := TeaFunc(x, sum, CpuToLe32(cpu, Load(cpu, k[at..at + 4])),
                 CpuToLe32(cpu, Load(cpu, k[at + 4..at + 8])));
  }

  /** Reads the block into registers. */
  method ReadBlock(cpu: Endian, v: array<byte>) returns (y: word, z: word)
    requires v.Length == 8
    ensures Block(y, z) == BlockOf(v[..])
  {
    hide Load, CpuToLe32, CpuToBe32;
    assert v[..][..4] == v[..4] && v[..][4..] == v[4..];
    LoadIsLittleEndian(cpu, v[..4]);
    LoadIsLittleEndian(cpu, v[4..]);
    y := CpuToLe32(cpu, Load(cpu, v[..4]));
    z := CpuToLe32(cpu, Load(cpu, v[4..]));
  }

  /** Writes registers into the block. */
  method WriteBlock(cpu: Endian, v: array<byte>, y: word, z: word)
    requires v.Length == 8
    modifies v
    ensures v[..] == BytesOf(Block(y, z))
  {
    hide Store, Le32ToCpu, CpuToBe32;
    StoreIsLittleEndian(cpu, y);
    StoreIsLittleEndian(cpu, z);
    var m := Store(cpu, Le32ToCpu(cpu, y)) + Store(cpu, Le32ToCpu(cpu, z));
    forall i | 0 <= i < 8 {
      v[i] := m[i];
    }
  }

  /** `tea_enc`: on a processor of either byte order the block becomes the same bytes. */
  method TeaEnc(cpu: Endian, v: array<byte>, k: array<byte>)
    requires v.Length == 8 && k.Length == 16
    modifies v
    ensures v[..] == EncryptBytes(old(v[..]), k[..])
  {
    hide TeaFunc, Load, Add, BytesOf, BlockOf;
    ghost var key, b := KeyOf(k[..]), BlockOf(v[..]);
    KeyWords(k);
    var y, z := ReadBlock(cpu, v);
    var sum: word := 0;
    var n := ROUNDS;
    while n > 0
      invariant 0 <= n <= ROUNDS
      invariant sum == Sum(ROUNDS - n)
      invariant Block(y, z) == Encrypt(key, b, ROUNDS - n)
    {
      n := n - 1;
      sum := Add(sum, DELTA);
      var f := Mix(cpu, z, sum, k, 0);
      y := Add(y, f);
      f := Mix(cpu, y, sum, k, 8);
      z := Add(z, f);
    }
    WriteBlock(cpu, v, y, z);
  }

  lemma KeyWords(k: array<byte>)
    requires k.Length == 16
    ensures KeyOf(k[..]) == Key(Load(LittleEndian, k[0..4]), Load(LittleEndian, k[4..8]),
                                Load(LittleEndian, k[8..12]), Load(LittleEndian, k[12..16]))
  {
    hide Load;
    var s := k[..];
    assert s[..4] == k[0..4] && s[4..8] == k[4..8] && s[8..12] == k[8..12] && s[12..] == k[12..16];
  }

  /** `tea_dec`. */
  method TeaDec(cpu: Endian, v: array<byte>, k: array<byte>)
    requires v.Length == 8 && k.Length == 16
    modifies v
    ensures v[..] == DecryptBytes(old(v[..]), k[..])
  {
    hide TeaFunc, Load, Add, Sub, BytesOf, BlockOf;
    ghost var key, b := KeyOf(k[..]), BlockOf(v[..]);
    KeyWords(k);
    LastSum();
    var y, z := ReadBlock(cpu, v);
    var sum := LAST_SUM;
    var n := ROUNDS;
    while n > 0
      invariant 0 <= n <= ROUNDS
      invariant sum == Sum(n)
      invariant Decrypt(key, Block(y, z), n) == Decrypt(key, b, ROUNDS)
    {
      SumBack(n);
      n := n - 1;
      var f := Mix(cpu, y, sum, k, 8);
      z := Sub(z, f);
      f := Mix(cpu, z, sum, k, 0);
      y := Sub(y, f);
      sum := Sub(sum, DELTA);
    }
    WriteBlock(cpu, v, y, z);
  }
}
