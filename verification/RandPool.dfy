/** The entropy pool (bertos/algo/randpool.c, randpool.h), with the timer enabled. */
module RandPool {
  import opened Arithmetic
  import opened CTypes
  import opened Md2
  import ByteOrder

  const DIGEST_LEN := 16

  /** C's unsigned arithmetic on 32 bits; `size_t` and `ticks_t` have this width. */
  function Wrap(x: int): uint32 { x % 0x1_0000_0000 }

  /** What the pool cannot foresee: the timer's value at its k-th reading, and the temporary buffer of
      `randpool_stir` at its k-th printing, whose tail is never written. */
  datatype World = World(perm: Perm, cpu: ByteOrder.Endian, clock: nat -> uint32, tmpBuf: nat -> seq<byte>)

  datatype Pool = Pool(
    cells: seq<byte>,
    posAdd: nat,
    posGet: nat,
    entropy: uint32,
    counter: uint32,
    lastCounter: uint32,
    events: nat)

  // ----- Pushing bytes -----

  /** The pool after XORing bytes into it, round and round from a position on. */
  function PushCells(cells: seq<byte>, pos: nat, bytes: seq<byte>): (r: seq<byte>)
    requires pos < |cells|
    ensures |r| == |cells|
    decreases |bytes|
  {
    if bytes == [] then cells
    else
      var n := |bytes| - 1;
      var r, i := PushCells(cells, pos, bytes[..n]), (pos + n) % |cells|;
      r[i := Xor8(r[i], bytes[n])]
  }

  /** All bytes that fall on cell k, XORed together. */
  function FallingOn(bytes: seq<byte>, pos: nat, size: nat, k: nat): byte
    requires size > 0
    decreases |bytes|
  {
    if bytes == [] then 0
    else
      var n := |bytes| - 1;
      var f := FallingOn(bytes[..n], pos, size, k);
      if (pos + n) % size == k then Xor8(f, bytes[n]) else f
  }

  lemma XorLaws(a: byte, b: byte, c: byte)
    ensures Xor8(Xor8(a, b), c) == Xor8(a, Xor8(b, c))
    ensures Xor8(a, b) == Xor8(b, a)
    ensures Xor8(a, 0) == a
  {}

  /** Every cell is XORed with the bytes at its places in the stream. */
  lemma {:induction false} PushedCell(cells: seq<byte>, pos: nat, bytes: seq<byte>, k: nat)
    requires pos < |cells| && k < |cells|
    ensures PushCells(cells, pos, bytes)[k] == Xor8(cells[k], FallingOn(bytes, pos, |cells|, k))
    decreases |bytes|
  {
    hide Xor8;
    if bytes == [] {
      XorLaws(cells[k], 0, 0);
    } else {
      var n := |bytes| - 1;
      PushedCell(cells, pos, bytes[..n], k);
      XorLaws(cells[k], FallingOn(bytes[..n], pos, |cells|, k), bytes[n]);
    }
  }

  lemma PushSnoc(cells: seq<byte>, pos: nat, bytes: seq<byte>, b: byte)
    requires pos < |cells|
    ensures var r, i := PushCells(cells, pos, bytes), (pos + |bytes|) % |cells|;
            PushCells(cells, pos, bytes + [b]) == r[i := Xor8(r[i], b)]
  {
    hide Xor8;
    assert (bytes + [b])[..|bytes|] == bytes;
  }

  /** Two pushes that agree, and are at the same place, go on agreeing. */
  lemma PushAlike(c: seq<byte>, p: nat, s: seq<byte>, d: seq<byte>, q: nat, t: seq<byte>, x: byte)
    requires p < |c| == |d| && q < |d|
    requires PushCells(c, p, s) == PushCells(d, q, t) && (p + |s|) % |c| == (q + |t|) % |d|
    ensures PushCells(c, p, s + [x]) == PushCells(d, q, t + [x])
  {
    hide PushCells, Xor8;
    PushSnoc(c, p, s, x);
    PushSnoc(d, q, t, x);
  }

  lemma PushConcatStep(cells: seq<byte>, pos: nat, a: seq<byte>, b: seq<byte>, x: byte)
    requires pos < |cells|
    requires PushCells(PushCells(cells, pos, a), (pos + |a|) % |cells|, b) == PushCells(cells, pos, a + b)
    ensures PushCells(PushCells(cells, pos, a), (pos + |a|) % |cells|, b + [x]) == PushCells(cells, pos, a + b + [x])
  {
    hide PushCells;
    WrappedSum(pos + |a|, |b|, |cells|);
    assert |a + b| == |a| + |b|;
    PushAlike(PushCells(cells, pos, a), (pos + |a|) % |cells|, b, cells, pos, a + b, x);
  }

  /** Two pushes are one push of the concatenation. */
  lemma {:induction false} PushConcat(cells: seq<byte>, pos: nat, a: seq<byte>, b: seq<byte>)
    requires pos < |cells|
    ensures PushCells(PushCells(cells, pos, a), (pos + |a|) % |cells|, b) == PushCells(cells, pos, a + b)
    decreases |b|
  {
    if b == [] {
      assert a + b == a;
    } else {
      hide PushCells;
      var n := |b| - 1;
      PushConcat(cells, pos, a, b[..n]);
      PushConcatStep(cells, pos, a, b[..n], b[n]);
      assert b[..n] + [b[n]] == b;
      assert a + b[..n] + [b[n]] == a + b;
    }
  }

  /** Pushing the same bytes at the same place again takes them out. */
  lemma PushTwice(cells: seq<byte>, pos: nat, bytes: seq<byte>)
    requires pos < |cells|
    ensures PushCells(PushCells(cells, pos, bytes), pos, bytes) == cells
  {
    hide Xor8;
    var p := PushCells(cells, pos, bytes);
    forall k | 0 <= k < |cells| ensures PushCells(p, pos, bytes)[k] == cells[k] {
      PushedCell(cells, pos, bytes, k);
      PushedCell(p, pos, bytes, k);
      XorTwice(cells[k], FallingOn(bytes, pos, |cells|, k));
    }
  }

  /** Nothing a caller pushes can make two different pools equal. */
  lemma PushInjective(c: seq<byte>, d: seq<byte>, pos: nat, bytes: seq<byte>)
    requires pos < |c| == |d|
    ensures PushCells(c, pos, bytes) == PushCells(d, pos, bytes) <==> c == d
  {
    PushTwice(c, pos, bytes);
    PushTwice(d, pos, bytes);
  }

  /** The order of two pushes does not matter, whatever their positions. */
  lemma PushCommutes(cells: seq<byte>, p: nat, a: seq<byte>, q: nat, b: seq<byte>)
    requires p < |cells| && q < |cells|
    ensures PushCells(PushCells(cells, p, a), q, b) == PushCells(PushCells(cells, q, b), p, a)
  {
    hide Xor8;
    var pa, qb := PushCells(cells, p, a), PushCells(cells, q, b);
    forall k | 0 <= k < |cells| ensures PushCells(pa, q, b)[k] == PushCells(qb, p, a)[k] {
      PushedCell(cells, p, a, k);
      PushedCell(cells, q, b, k);
      PushedCell(pa, q, b, k);
      PushedCell(qb, p, a, k);
      var x, y := FallingOn(a, p, |cells|, k), FallingOn(b, q, |cells|, k);
      XorLaws(cells[k], x, y);
      XorLaws(cells[k], y, x);
      XorLaws(x, y, 0);
    }
  }

  // ----- What the operations do to the pool -----

  /** The sizes for which the blocks that `randpool_get` hashes stay inside the pool; see `BlocksFit`. */
  predicate GoodSize(size: nat) {
    size % DIGEST_LEN == 0 && size >= 2 * DIGEST_LEN
  }

  predicate Legal(p: Pool) {
    && GoodSize(|p.cells|)
    && p.posAdd < |p.cells|
    && p.posGet % DIGEST_LEN == 0 && DIGEST_LEN <= p.posGet <= |p.cells| - DIGEST_LEN
  }

  /** `randpool_push`. */
  function Push(p: Pool, bytes: seq<byte>): (r: Pool)
    requires Legal(p)
    ensures Legal(r) && |r.cells| == |p.cells| && r.posGet == p.posGet
  {
    p.(cells := PushCells(p.cells, p.posAdd, bytes), posAdd := (p.posAdd + |bytes|) % |p.cells|)
  }

  lemma PushPush(p: Pool, a: seq<byte>, b: seq<byte>)
    requires Legal(p)
    ensures Push(Push(p, a), b) == Push(p, a + b)
  {
    PushConcat(p.cells, p.posAdd, a, b);
    WrappedSum(p.posAdd + |a|, |b|, |p.cells|);
  }

  /** How many bytes hold this many bits: ROUND_UP(bits, 8) / 8 in 32 bits. */
  function DataLen(bits: uint32): nat {
    Wrap(bits + 7) / 8
  }

  function BitLength(x: nat): nat {
    if x == 0 then 0 else 1 + BitLength(x / 2)
  }

  /** A word as it lies in memory. */
  function Memory(cpu: ByteOrder.Endian, x: uint32): (m: seq<byte>)
    ensures |m| == 4
  {
    ByteOrder.Store(cpu, x as bv32)
  }

  const SEP: seq<byte> := [0xaa, 0xaa, 0xaa, 0xaa]

  /** The time between this use of the pool and the last one. */
  function Delta(w: World, p: Pool): uint32 {
    Wrap(w.clock(p.events) - p.lastCounter)
  }

  /** The bytes that `randpool_add` pushes. */
  function Contribution(w: World, p: Pool, data: seq<byte>): (c: seq<byte>)
    ensures |c| == |data| + 12
  {
    data + Memory(w.cpu, w.clock(p.events)) + SEP + Memory(w.cpu, Delta(w, p))
  }

  /** `randpool_add`, of data that stand for this many bits. */
  function Added(w: World, p: Pool, data: seq<byte>, bits: uint32): (r: Pool)
    requires Legal(p)
    ensures Legal(r) && |r.cells| == |p.cells| && r.posGet == p.posGet
  {
    Push(p, Contribution(w, p, data)).(
      entropy := Wrap(p.entropy + bits + BitLength(Delta(w, p) % 0x100)),
      lastCounter := w.clock(p.events),
      events := p.events + 1)
  }

  /** A pool and the bytes that a digest has consumed. */
  datatype Hashing = Hashing(pool: Pool, message: seq<byte>)

  /** n rounds of `randpool_stir`, which share one digest. */
  function StirRounds(w: World, p: Pool, n: nat): (r: Hashing)
    requires Legal(p)
    ensures Legal(r.pool) && |r.pool.cells| == |p.cells| && r.pool.posGet == p.posGet
    ensures |r.message| % DIGEST_LEN == 0
  {
    if n == 0 then Hashing(p, [])
    else
      var h := StirRounds(w, p, n - 1);
      var m := Finished(w.perm, h.message + h.pool.cells + w.tmpBuf(h.pool.events));
      Hashing(
        Push(h.pool, Hash(w.perm, m)).(counter := Wrap(h.pool.counter + 1), events := h.pool.events + 1),
        m)
  }

  /** `randpool_stir`. */
  function Stirred(w: World, p: Pool): (r: Pool)
    requires Legal(p)
    ensures Legal(r) && |r.cells| == |p.cells|
    ensures r.posGet == p.posGet && r.entropy == p.entropy
  {
    var q := StirRounds(w, Added(w, p, [], 0), |p.cells| / DIGEST_LEN).pool;
    Added(w, q, [], 0).(entropy := p.entropy)
  }

  /** The rest of `randpool_get`: the pool with the position of its next block, and the bytes written. */
  datatype Got = Got(pool: Pool, pos: nat, output: seq<byte>)

  /** Where `randpool_get` reads next, and the pool by then: past the last block it stirs the pool and goes back
      to where it started. */
  function NextPos(p: Pool, i: nat): (j: nat)
    requires Legal(p) && Legal(p.(posGet := i))
    ensures Legal(p.(posGet := j))
  {
    NextPosFits(|p.cells|, i);
    var j := (i + DIGEST_LEN) % |p.cells|;
    if j < DIGEST_LEN then p.posGet else j
  }

  lemma NextPosFits(size: nat, i: nat)
    requires GoodSize(size) && i % DIGEST_LEN == 0 && i <= size - DIGEST_LEN
    ensures var j := (i + DIGEST_LEN) % size;
            j == (if i + DIGEST_LEN == size then 0 else i + DIGEST_LEN) && j % DIGEST_LEN == 0
            && j <= size - DIGEST_LEN
  {
    if i + DIGEST_LEN == size {
      RemainderIs(size, 1, 0, size);
    } else {
      RemainderIs(i + DIGEST_LEN, 0, i + DIGEST_LEN, size);
    }
  }

  function NextPool(w: World, p: Pool, i: nat): (r: Pool)
    requires Legal(p)
    ensures Legal(r) && |r.cells| == |p.cells| && r.posGet == p.posGet && r.entropy == p.entropy
  {
    if (i + DIGEST_LEN) % |p.cells| < DIGEST_LEN then Stirred(w, p) else p
  }

  /** `n` more bytes, in blocks that share one digest. */
  function GetBlocks(w: World, p: Pool, message: seq<byte>, i: nat, n: nat): (r: Got)
    requires Legal(p) && Legal(p.(posGet := i))
    ensures Legal(r.pool.(posGet := r.pos)) && |r.pool.cells| == |p.cells|
    ensures r.pool.posGet == p.posGet && r.pool.entropy == p.entropy
    ensures |r.output| == n
    decreases n
  {
    if n == 0 then Got(p, i, [])
    else
      var len := if n < DIGEST_LEN then n else DIGEST_LEN;
      var m := Finished(w.perm, message + p.cells[i..i + DIGEST_LEN]);
      var r := GetBlocks(w, NextPool(w, p, i), m, NextPos(p, i), n - len);
      r.(output := Hash(w.perm, m)[..len] + r.output)
  }

  /** `randpool_get`. */
  function PoolAfterGet(w: World, p: Pool, n: uint32): (r: Pool)
    requires Legal(p)
    ensures Legal(r) && |r.cells| == |p.cells| && r.entropy == Wrap(p.entropy - n)
  {
    var g := GetBlocks(w, p, [], p.posGet, n);
    g.pool.(posGet := g.pos, entropy := Wrap(p.entropy - n))
  }

  function Output(w: World, p: Pool, n: uint32): (r: seq<byte>)
    requires Legal(p)
    ensures |r| == n
  {
    GetBlocks(w, p, [], p.posGet, n).output
  }

  datatype Option<T> = None | Some(value: T)

  /** `randpool_init`, with or without an earlier pool. */
  function Initial(w: World, size: nat, data: Option<seq<byte>>): (p: Pool)
    requires size > 0
    ensures |p.cells| == size && (Legal(p) <==> GoodSize(size))
  {
    var loaded := if data.None? then [] else if |data.value| <= size then data.value else data.value[..size];
    Pool(loaded + Zeros(size - |loaded|), 0, DIGEST_LEN, Wrap(|loaded|), 0, w.clock(0), 1)
  }

  // ----- Properties of whole runs -----

  datatype Op = Add(data: seq<byte>, bits: uint32) | Get(n: uint32)

  function Step(w: World, p: Pool, op: Op): (r: Pool)
    requires Legal(p)
    ensures Legal(r) && |r.cells| == |p.cells|
  {
    match op
    case Add(data, bits) => Added(w, p, data, bits)
    case Get(n) => PoolAfterGet(w, p, n)
  }

  /** Every position stays legal, in whatever order the pool is used. */
  function Run(w: World, p: Pool, ops: seq<Op>): (r: Pool)
    requires Legal(p)
    ensures Legal(r) && |r.cells| == |p.cells|
    decreases |ops|
  {
    if ops == [] then p else Step(w, Run(w, p, ops[..|ops| - 1]), ops[|ops| - 1])
  }

  /** What an operation adds to the entropy count: its bits and those of the time since the last use, or
      minus the bytes taken. Stirring adds nothing. */
  function Credit(w: World, p: Pool, op: Op): int {
    match op
    case Add(_, bits) => bits + BitLength(Delta(w, p) % 0x100)
    case Get(n) => 0 - n
  }

  function Credits(w: World, p: Pool, ops: seq<Op>): int
    requires Legal(p)
    decreases |ops|
  {
    if ops == [] then 0
    else
      var before := ops[..|ops| - 1];
      Credits(w, p, before) + Credit(w, Run(w, p, before), ops[|ops| - 1])
  }

  /** The entropy count after any run is the sum of all credits, in 32 bits: it wraps around when overdrawn. */
  lemma {:induction false} EntropyIsSumOfCredits(w: World, p: Pool, ops: seq<Op>)
    requires Legal(p)
    ensures Run(w, p, ops).entropy == Wrap(p.entropy + Credits(w, p, ops))
    decreases |ops|
  {
    hide Legal, Step, Credit;
    if ops != [] {
      var before, op := ops[..|ops| - 1], ops[|ops| - 1];
      EntropyIsSumOfCredits(w, p, before);
      StepCredit(w, Run(w, p, before), op);
    }
  }

  lemma StepCredit(w: World, p: Pool, op: Op)
    requires Legal(p)
    ensures Step(w, p, op).entropy == Wrap(p.entropy + Credit(w, p, op))
  {
    hide Contribution, Push, Delta, BitLength, GetBlocks, Legal;
  }

  /** A single use of the timer is worth at most eight bits. */
  lemma TimeCreditBound(w: World, p: Pool)
    ensures BitLength(Delta(w, p) % 0x100) <= 8
  {
    hide Delta;
    assert Power2(8) == 0x100;
    BitLengthBound(Delta(w, p) % 0x100, 8);
  }

  lemma {:induction false} BitLengthBound(x: nat, n: nat)
    requires x < Power2(n)
    ensures BitLength(x) <= n
    decreases n
  {
    if x > 0 {
      BitLengthBound(x / 2, n - 1);
    }
  }

  /** The bits counted for a time difference are those of its binary form, without leading zeros. */
  lemma {:induction false} BitLengthIs(x: nat)
    ensures x < Power2(BitLength(x))
    ensures x > 0 ==> BitLength(x) > 0 && Power2(BitLength(x) - 1) <= x
  {
    if x > 0 {
      BitLengthIs(x / 2);
    }
  }

  function Power2(n: nat): nat {
    if n == 0 then 1 else 2 * Power2(n - 1)
  }

  /** Adding the same bytes at the same time keeps different pools different. */
  lemma AddedKeepsApart(w: World, p: Pool, q: Pool, data: seq<byte>, bits: uint32)
    requires Legal(p) && q == p.(cells := q.cells) && |q.cells| == |p.cells|
    ensures Added(w, p, data, bits).cells == Added(w, q, data, bits).cells <==> p.cells == q.cells
  {
    PushInjective(p.cells, q.cells, p.posAdd, Contribution(w, p, data));
  }

  /** Every stirring moves the place for the next byte on by the 24 bytes of its two time stamps; its digests go
      exactly once round the pool. */
  lemma StirredPosition(w: World, p: Pool)
    requires Legal(p)
    ensures Stirred(w, p).posAdd == (p.posAdd + 24) % |p.cells|
  {
    hide Legal, Added, StirRounds;
    var p1 := Added(w, p, [], 0);
    AddedPosition(w, p, []);
    FullStirPosition(w, p1);
    var p2 := StirRounds(w, p1, |p.cells| / DIGEST_LEN).pool;
    AddedPosition(w, p2, []);
    OnceAround(p.posAdd, p1.posAdd, p2.posAdd, Added(w, p2, [], 0).posAdd, |p.cells|);
  }

  lemma AddedPosition(w: World, p: Pool, data: seq<byte>)
    requires Legal(p)
    ensures |p.cells| > 0 && Added(w, p, data, 0).posAdd == (p.posAdd + |data| + 12) % |p.cells|
  {
    hide Contribution, PushCells;
  }

  lemma FullStirPosition(w: World, p: Pool)
    requires Legal(p)
    ensures |p.cells| > 0
    ensures StirRounds(w, p, |p.cells| / DIGEST_LEN).pool.posAdd == (p.posAdd + |p.cells|) % |p.cells|
  {
    hide StirRounds;
    StirRoundsPosition(w, p, |p.cells| / DIGEST_LEN);
  }

  lemma OnceAround(a: nat, b: nat, c: nat, d: nat, size: nat)
    requires size > 0 && b == (a + 12) % size && c == (b + size) % size && d == (c + 12) % size
    ensures d == (a + 24) % size
  {
    RemainderIs(b + size, 1, b, size);
    WrappedSum(a + 12, 12, size);
  }

  lemma {:induction false} StirRoundsPosition(w: World, p: Pool, n: nat)
    requires Legal(p)
    ensures StirRounds(w, p, n).pool.posAdd == (p.posAdd + DIGEST_LEN * n) % |p.cells|
  {
    hide PushCells, Finished, Hash;
    if n > 0 {
      StirRoundsPosition(w, p, n - 1);
      WrappedSum(p.posAdd + DIGEST_LEN * (n - 1), DIGEST_LEN, |p.cells|);
    }
  }

  /** Whoever asks for fewer bytes gets the first of those that another would get. */
  lemma {:induction false} ShorterIsPrefix(w: World, p: Pool, message: seq<byte>, i: nat, n: nat, n': nat)
    requires Legal(p) && Legal(p.(posGet := i)) && n <= n'
    ensures GetBlocks(w, p, message, i, n).output <= GetBlocks(w, p, message, i, n').output
    decreases n
  {
    hide Finished, Hash, NextPool, NextPos;
    if n >= DIGEST_LEN {
      var m := Finished(w.perm, message + p.cells[i..i + DIGEST_LEN]);
      ShorterIsPrefix(w, NextPool(w, p, i), m, NextPos(p, i), n - DIGEST_LEN, n' - DIGEST_LEN);
    }
  }

  // ----- What a get does to the pool, and what it returns -----

  lemma {:induction false} StirRoundsCounter(w: World, p: Pool, n: nat)
    requires Legal(p)
    ensures StirRounds(w, p, n).pool.counter == if n == 0 then p.counter else Wrap(p.counter + n)
  {
    hide PushCells, Finished, Hash, Wrap;
    if n > 0 {
      StirRoundsCounter(w, p, n - 1);
      WrapTwice(p.counter + (n - 1), 1);
    }
  }

  /** Every stirring counts once for each block of the pool. */
  lemma StirredCounter(w: World, p: Pool)
    requires Legal(p)
    ensures |p.cells| / DIGEST_LEN > 0
    ensures Stirred(w, p).counter == Wrap(p.counter + |p.cells| / DIGEST_LEN)
  {
    hide StirRounds, PushCells, Contribution, Wrap;
    var p1, n := Added(w, p, [], 0), |p.cells| / DIGEST_LEN;
    assert p1.counter == p.counter;
    StirRoundsCounter(w, p1, n);
  }

  /** How many blocks are read between two stirrings. */
  function Lap(p: Pool): (r: nat)
    requires Legal(p)
    ensures r > 0
  {
    (|p.cells| - p.posGet) / DIGEST_LEN
  }

  function Blocks(n: nat): nat {
    (n + 15) / DIGEST_LEN
  }

  /** What is left of n bytes behind their first block. */
  function Rest(n: nat): (r: nat)
    ensures n > 0 ==> r < n && Blocks(n) == 1 + Blocks(r)
  {
    if n < DIGEST_LEN then 0 else n - DIGEST_LEN
  }

  /** The pool as it is when a get began with it, after k stirrings, as far as position and counter go. */
  predicate StirredTimes(p: Pool, q: Pool, k: nat)
    requires Legal(p)
  {
    && q.posAdd == (p.posAdd + 24 * k) % |p.cells|
    && q.counter == Wrap(p.counter + k * (|p.cells| / DIGEST_LEN))
  }

  lemma StirredOnce(w: World, p: Pool, q: Pool, k: nat)
    requires Legal(p) && StirredTimes(Stirred(w, p), q, k)
    ensures StirredTimes(p, q, k + 1)
  {
    hide Stirred, Legal, Wrap;
    var size, blocks := |p.cells|, |p.cells| / DIGEST_LEN;
    StirredPosition(w, p);
    StirredCounter(w, p);
    SizePositive(p);
    WrappedSum(p.posAdd + 24, 24 * k, size);
    Distribute(k, 1, blocks);
    WrapTwice(p.counter + blocks, k * blocks);
  }

  lemma SizePositive(p: Pool)
    requires Legal(p)
    ensures |p.cells| > 0
  {
  }

  lemma NotStirred(p: Pool)
    requires Legal(p)
    ensures StirredTimes(p, p, 0)
  {
    RemainderIs(p.posAdd, 0, p.posAdd, |p.cells|);
  }

  /** One round of a get, as far as the pool and the position go. */
  lemma OneRound(w: World, p: Pool, message: seq<byte>, i: nat, n: nat) returns (m: seq<byte>)
    requires Legal(p) && Legal(p.(posGet := i)) && n > 0
    ensures Legal(NextPool(w, p, i).(posGet := NextPos(p, i)))
    ensures var g := GetBlocks(w, p, message, i, n);
            var h := GetBlocks(w, NextPool(w, p, i), m, NextPos(p, i), Rest(n));
            g.pool == h.pool && g.pos == h.pos
  {
    hide Finished, Hash, NextPool, NextPos;
    m := Finished(w.perm, message + p.cells[i..i + DIGEST_LEN]);
  }

  /** Inside a lap a round moves on by one block; at its end it stirs the pool and goes back to the start. */
  lemma NextInLap(w: World, p: Pool, i: nat, u: nat)
    requires Legal(p) && u < Lap(p) && i == p.posGet + DIGEST_LEN * u
    ensures Legal(p.(posGet := i))
    ensures u + 1 < Lap(p) ==> NextPool(w, p, i) == p && NextPos(p, i) == i + DIGEST_LEN
    ensures u + 1 == Lap(p) ==> NextPool(w, p, i) == Stirred(w, p) && NextPos(p, i) == p.posGet
  {
    LapPosition(p, u);
    hide Stirred, Lap;
    NextPosFits(|p.cells|, i);
  }

  /** u blocks behind the start of a lap, n more bytes stir the pool once for every lap that they complete, and
      leave the read position v blocks behind the start of the next one. */
  lemma {:induction false} GetBlocksEffect(w: World, p: Pool, message: seq<byte>, i: nat, u: nat, n: nat)
    returns (k: nat, v: nat)
    requires Legal(p) && Legal(p.(posGet := i)) && u < Lap(p) && i == p.posGet + DIGEST_LEN * u
    ensures v < Lap(p) && u + Blocks(n) == k * Lap(p) + v
    ensures var g := GetBlocks(w, p, message, i, n); StirredTimes(p, g.pool, k) && g.pos == p.posGet + DIGEST_LEN * v
    decreases n
  {
    hide GetBlocks, NextPool, NextPos, Stirred, StirredTimes, Legal, Blocks, Lap, Rest;
    if n == 0 {
      GetNothing(w, p, message, i);
      NotStirred(p);
      k, v := 0, u;
    } else if u + 1 < Lap(p) {
      NextInLap(w, p, i, u);
      var m := OneRound(w, p, message, i, n);
      k, v := GetBlocksEffect(w, p, m, i + DIGEST_LEN, u + 1, Rest(n));
    } else {
      var q := Stirred(w, p);
      NextInLap(w, p, i, u);
      var m := OneRound(w, p, message, i, n);
      SameLap(w, p);
      k, v := GetBlocksEffect(w, q, m, q.posGet, 0, Rest(n));
      StirredOnce(w, p, GetBlocks(w, q, m, q.posGet, Rest(n)).pool, k);
      Distribute(k, 1, Lap(p));
      k := k + 1;
    }
  }

  lemma SameLap(w: World, p: Pool)
    requires Legal(p)
    ensures Lap(Stirred(w, p)) == Lap(p)
    ensures Legal(Stirred(w, p).(posGet := p.posGet))
  {
    hide Stirred;
  }

  lemma GetNothing(w: World, p: Pool, message: seq<byte>, i: nat)
    requires Legal(p) && Legal(p.(posGet := i))
    ensures GetBlocks(w, p, message, i, 0).pool == p && GetBlocks(w, p, message, i, 0).pos == i
    ensures Blocks(0) == 0
  {
  }

  lemma LapPosition(p: Pool, u: nat)
    requires Legal(p) && u < Lap(p)
    ensures Legal(p.(posGet := p.posGet + DIGEST_LEN * u))
    ensures u + 1 == Lap(p) <==> p.posGet + DIGEST_LEN * u + DIGEST_LEN == |p.cells|
  {
  }

  /** A get stirs the pool once for every lap from its read position to the end of the pool that it completes. */
  lemma GetEffect(w: World, p: Pool, n: uint32)
    requires Legal(p)
    ensures var q, k := PoolAfterGet(w, p, n), Blocks(n) / Lap(p);
            && q.posAdd == (p.posAdd + 24 * k) % |p.cells|
            && q.counter == Wrap(p.counter + k * (|p.cells| / DIGEST_LEN))
            && q.posGet == p.posGet + DIGEST_LEN * (Blocks(n) % Lap(p))
  {
    hide GetBlocks, Legal, Wrap, Blocks, Lap;
    GetAllowed(p);
    SizePositive(p);
    var k, v := GetBlocksEffect(w, p, [], p.posGet, 0, n);
    RemainderIs(Blocks(n), k, v, Lap(p));
  }

  /** A get that completes no lap does not change the cells. */
  lemma GetTooShort(w: World, p: Pool, n: uint32)
    requires Legal(p) && Blocks(n) < Lap(p)
    ensures PoolAfterGet(w, p, n).cells == p.cells
  {
    GetAllowed(p);
    Unstirred(w, p, [], p.posGet, 0, n);
  }

  lemma {:induction false} Unstirred(w: World, p: Pool, message: seq<byte>, i: nat, u: nat, n: nat)
    requires Legal(p) && Legal(p.(posGet := i)) && i == p.posGet + DIGEST_LEN * u && u + Blocks(n) < Lap(p)
    ensures GetBlocks(w, p, message, i, n).pool == p
    decreases n
  {
    hide GetBlocks, NextPool, NextPos, Legal, Blocks, Lap, Rest;
    if n == 0 {
      GetNothing(w, p, message, i);
    } else {
      assert Rest(n) < n;
      NextInLap(w, p, i, u);
      var m := OneRound(w, p, message, i, n);
      Unstirred(w, p, m, i + DIGEST_LEN, u + 1, Rest(n));
    }
  }

  /** The first block that a get returns is the MD2 digest of the sixteen cells at the read position. */
  lemma FirstBlock(w: World, p: Pool, n: uint32)
    requires Legal(p) && n >= DIGEST_LEN
    ensures Output(w, p, n)[..DIGEST_LEN] == Digest(w.perm, p.cells[p.posGet..p.posGet + DIGEST_LEN])
  {
    hide NextPool, NextPos, Hash, Finished;
    var block := p.cells[p.posGet..p.posGet + DIGEST_LEN];
    assert [] + block == block;
  }

  /** Behind a block comes the next one of the same pool, as long as there is one. The digest runs on. */
  lemma NextBlock(w: World, p: Pool, message: seq<byte>, i: nat, j: nat, n: nat)
    requires Legal(p) && Legal(p.(posGet := i)) && Legal(p.(posGet := j)) && j == i + DIGEST_LEN && n > DIGEST_LEN
    ensures GetBlocks(w, p, message, i, n).output[DIGEST_LEN..] ==
            GetBlocks(w, p, Finished(w.perm, message + p.cells[i..j]), j, n - DIGEST_LEN).output
  {
    hide Stirred, Hash, Finished;
    NextPosFits(|p.cells|, i);
    var m := Finished(w.perm, message + p.cells[i..j]);
    DropDigest(Hash(w.perm, m), GetBlocks(w, p, m, j, n - DIGEST_LEN).output);
  }

  /** Behind the last block of the pool comes the block at the read position of the stirred pool, with the same
      digest running on. */
  lemma BlockOfStirred(w: World, p: Pool, message: seq<byte>, i: nat, n: nat)
    requires Legal(p) && Legal(p.(posGet := i)) && n > DIGEST_LEN && i + DIGEST_LEN == |p.cells|
    ensures var m := Finished(w.perm, message + p.cells[i..i + DIGEST_LEN]);
            GetBlocks(w, p, message, i, n).output[DIGEST_LEN..] ==
            GetBlocks(w, Stirred(w, p), m, p.posGet, n - DIGEST_LEN).output
  {
    hide Stirred, Hash, Finished;
    NextPosFits(|p.cells|, i);
    var m := Finished(w.perm, message + p.cells[i..i + DIGEST_LEN]);
    DropDigest(Hash(w.perm, m), GetBlocks(w, Stirred(w, p), m, p.posGet, n - DIGEST_LEN).output);
  }

  lemma DropDigest(h: seq<byte>, rest: seq<byte>)
    requires |h| == DIGEST_LEN
    ensures (h[..DIGEST_LEN] + rest)[DIGEST_LEN..] == rest
  {
  }

  /** What one round of stirring hashes, behind all that the rounds before it have hashed: the whole pool, and then
      the temporary buffer. Its digest is pushed. */
  lemma RoundHashes(w: World, p: Pool, n: nat)
    requires Legal(p)
    ensures var h, h' := StirRounds(w, p, n), StirRounds(w, p, n + 1);
            && h.message + h.pool.cells + w.tmpBuf(h.pool.events) <= h'.message
            && h'.pool.cells == PushCells(h.pool.cells, h.pool.posAdd, Hash(w.perm, h'.message))
  {
    hide Finished, Hash, PushCells;
  }

  /** The four things that an add pushes, one behind the other: the data, the time, four bytes 0xAA, and the time
      since the last use. */
  lemma AddedPushes(w: World, p: Pool, data: seq<byte>, bits: uint32)
    requires Legal(p)
    ensures var since := Wrap(w.clock(p.events) - p.lastCounter);
            var q := Push(Push(p, data), Memory(w.cpu, w.clock(p.events)));
            var r := Push(Push(q, [0xaa, 0xaa, 0xaa, 0xaa]), Memory(w.cpu, since));
            Added(w, p, data, bits).cells == r.cells && Added(w, p, data, bits).posAdd == r.posAdd
  {
    hide Push, Memory, Wrap, Legal;
    FourPushes(p, data, Memory(w.cpu, w.clock(p.events)), SEP, Memory(w.cpu, Delta(w, p)));
  }

  /** The time difference of an add is that between the timer's readings at it and at the add before it. */
  lemma DeltaBetweenAdds(w: World, p: Pool, data: seq<byte>, bits: uint32)
    requires Legal(p)
    ensures Delta(w, Added(w, p, data, bits)) == Wrap(w.clock(p.events + 1) - w.clock(p.events))
  {
    hide Push, Contribution, Wrap;
  }

  /** The bytes taken for some bits are the fewest that hold them, except for the largest seven counts, for which
      the sum wraps around and no byte is taken. */
  lemma FewestBytes(bits: uint32)
    ensures 8 * DataLen(bits) >= bits <==> bits <= 0xFFFF_FFF8
    ensures bits <= 0xFFFF_FFF8 && DataLen(bits) > 0 ==> 8 * (DataLen(bits) - 1) < bits
    ensures bits > 0xFFFF_FFF8 ==> DataLen(bits) == 0
  {
  }

  /** A pool that is initialized with the bytes of another starts with as many of them as fit, in order, then
      zeros, and counts each byte as one of entropy; the cells of another pool of this size all fit. */
  lemma RestoredCells(w: World, size: nat, data: seq<byte>, i: nat)
    requires i < size < 0x1_0000_0000
    ensures var r := Initial(w, size, Some(data));
            && r.cells[i] == (if i < |data| then data[i] else 0)
            && r.entropy == (if |data| < size then |data| else size)
            && r.posAdd == 0 && r.posGet == DIGEST_LEN
    ensures |data| == size ==> Initial(w, size, Some(data)).cells == data
    ensures Initial(w, size, None).cells[i] == 0 && Initial(w, size, None).entropy == 0
  {
    assert data + Zeros(0) == data;
  }

  // ----- Which sizes work -----

  /** The k-th position that `randpool_get` reads at in a pool that was never read before. */
  function Visited(size: nat, k: nat): nat
    requires size > 0
  {
    if k == 0 then DIGEST_LEN
    else
      var j := (Visited(size, k - 1) + DIGEST_LEN) % size;
      if j < DIGEST_LEN then DIGEST_LEN else j
  }

  /** These are the positions of `randpool_get` in a pool whose read position is the initial one. */
  lemma VisitedNext(p: Pool, k: nat)
    requires Legal(p) && p.posGet == DIGEST_LEN
    ensures Legal(p.(posGet := Visited(|p.cells|, k)))
    ensures NextPos(p, Visited(|p.cells|, k)) == Visited(|p.cells|, k + 1)
  {
    VisitedFits(|p.cells|, k);
  }

  /** n more bytes move the read position on by as many places as there are blocks in n. */
  lemma {:induction false} VisitedByGet(w: World, p: Pool, message: seq<byte>, k: nat, n: nat)
    requires Legal(p) && p.posGet == DIGEST_LEN && Legal(p.(posGet := Visited(|p.cells|, k)))
    ensures GetBlocks(w, p, message, Visited(|p.cells|, k), n).pos == Visited(|p.cells|, k + (n + 15) / DIGEST_LEN)
    decreases n
  {
    hide Visited, Finished, Hash, NextPool, NextPos;
    if n > 0 {
      var i := Visited(|p.cells|, k);
      var m := Finished(w.perm, message + p.cells[i..i + DIGEST_LEN]);
      VisitedNext(p, k);
      VisitedNext(p, k + 1);
      VisitedByGet(w, NextPool(w, p, i), m, k + 1, if n < DIGEST_LEN then 0 else n - DIGEST_LEN);
    }
  }

  /** Every block that is hashed lies inside the pool, for ever, exactly if the size is a multiple of 16 that
      passes the assertion at the first read. */
  lemma BlocksFit(size: nat)
    requires size > 0
    ensures (forall k :: Visited(size, k) + DIGEST_LEN <= size) <==> GoodSize(size)
  {
    if GoodSize(size) {
      forall k: nat ensures Visited(size, k) + DIGEST_LEN <= size {
        VisitedFits(size, k);
      }
    } else if size < 2 * DIGEST_LEN {
      assert Visited(size, 0) + DIGEST_LEN > size;
    } else {
      var k := size / DIGEST_LEN - 1;
      VisitedStart(size, k);
      assert Visited(size, k) + DIGEST_LEN > size;
    }
  }

  lemma {:induction false} VisitedFits(size: nat, k: nat)
    requires GoodSize(size)
    ensures Visited(size, k) % DIGEST_LEN == 0 && DIGEST_LEN <= Visited(size, k) <= size - DIGEST_LEN
  {
    if k > 0 {
      VisitedFits(size, k - 1);
      NextPosFits(size, Visited(size, k - 1));
    }
  }

  lemma {:induction false} VisitedStart(size: nat, k: nat)
    requires size % DIGEST_LEN != 0 && DIGEST_LEN * (k + 1) < size
    ensures Visited(size, k) == DIGEST_LEN * (k + 1)
  {
    if k > 0 {
      VisitedStart(size, k - 1);
      var j := DIGEST_LEN * (k + 1);
      RemainderIs(j, 0, j, size);
    }
  }

  // ----- The program -----

  class EntropyPool {
    const world: World
    const pool: array<byte>
    var posAdd: nat
    var posGet: nat
    var entropy: uint32
    var counter: uint32
    var lastCounter: uint32

    /** How often the outside world has been asked for something. */
    var events: nat

    ghost function Model(): Pool
      reads this, pool
    {
      Pool(pool[..], posAdd, posGet, entropy, counter, lastCounter, events)
    }

    ghost predicate Valid()
      reads this, pool
    {
      Legal(Model())
    }

    /** `randpool_init`. */
    constructor (world: World, size: nat, data: Option<seq<byte>>)
      requires size > 0
      ensures Model() == Initial(world, size, data)
      ensures Valid() <==> GoodSize(size)
      ensures fresh(pool) && this.world == world
    {
      this.world := world;
      pool := new byte[size](_ => 0);
      posAdd, posGet, entropy, counter, events := 0, DIGEST_LEN, 0, 0, 1;
      lastCounter := world.clock(0);
      new;
      if data.Some? {
        var len := if |data.value| < size then |data.value| else size;
        forall k | 0 <= k < len {
          pool[k] := data.value[k];
        }
        entropy := Wrap(len);
      }
      assert pool[..] == Initial(world, size, data).cells;
    }

    /** `randpool_push`. */
    method PushBytes(bytes: seq<byte>)
      requires Valid()
      modifies this`posAdd, pool
      ensures Valid() && Model() == Push(old(Model()), bytes)
    {
      PushLoop(bytes);
    }

    /** The loop of `randpool_push`. */
    method PushLoop(bytes: seq<byte>)
      requires posAdd < pool.Length
      modifies this`posAdd, pool
      ensures pool[..] == PushCells(old(pool[..]), old(posAdd), bytes)
      ensures posAdd == (old(posAdd) + |bytes|) % pool.Length
    {
      hide PushCells, Xor8;
      var start := posAdd;
      var i := start;
      ghost var cells := pool[..];
      PushNothing(cells, start);
      RemainderIs(start, 0, start, pool.Length);
      var j := 0;
      while j < |bytes|
        invariant 0 <= j <= |bytes| && i == (start + j) % pool.Length
        invariant pool[..] == PushCells(cells, start, bytes[..j])
      {
        PushNext(cells, start, bytes, j);
        pool[i] := Xor8(pool[i], bytes[j]);
        i := i + 1;
        i := i % pool.Length;
        j := j + 1;
      }
      assert bytes[..j] == bytes;
      posAdd := i;
    }

    /** `randpool_add`. */
    method Add(data: seq<byte>, bits: uint32)
      requires Valid() && |data| >= DataLen(bits)
      modifies this`posAdd, this`entropy, this`lastCounter, this`events, pool
      ensures Valid() && Model() == Added(world, old(Model()), data[..DataLen(bits)], bits)
    {
      hide Legal, Push, Memory, DataLen, Contribution, Wrap, BitLength;
      ghost var p := Model();
      ghost var d := data[..DataLen(bits)];
      PushBytes(data[..DataLen(bits)]);
      var event := world.clock(events);
      var delta := Wrap(event - lastCounter);
      PushBytes(Memory(world.cpu, event));
      PushBytes(SEP);
      PushBytes(Memory(world.cpu, delta));
      FourPushes(p, d, Memory(world.cpu, event), SEP, Memory(world.cpu, delta));
      ContributionIs(world, p, d, event, delta);
      var credit := AddBits(bits, delta % 0x100);
      lastCounter := event;
      entropy := Wrap(entropy + credit);
      events := events + 1;
      AddedIs(world, p, d, bits, Model());
    }

    /** `randpool_stir`. */
    method Stir()
      requires Valid()
      modifies this`posAdd, this`entropy, this`counter, this`lastCounter, this`events, pool
      ensures Valid() && Model() == Stirred(world, old(Model()))
    {
      hide Legal, Added, StirRounds, Stirred;
      var saved := entropy;
      ghost var p := Model();
      Add([], 0);
      NoData();
      StirAll();
      Add([], 0);
      entropy := saved;
      StirredIs(world, p, Model());
    }

    /** The loop of `randpool_stir`. */
    method StirAll()
      requires Valid()
      modifies this`posAdd, this`counter, this`events, pool
      ensures Valid() && Model() == StirRounds(world, old(Model()), pool.Length / DIGEST_LEN).pool
    {
      hide Legal, StirRounds, Md2Context.Filled;
      ghost var q := Model();
      var context := new Md2Context(world.perm);
      StirStart(world, q);
      var i := 0;
      while i < pool.Length / DIGEST_LEN
        invariant 0 <= i <= pool.Length / DIGEST_LEN
        invariant Valid() && context.Valid()
        invariant StirRounds(world, q, i) == Hashing(Model(), context.consumed)
      {
        StirOnce(context, q, i);
        i := i + 1;
      }
    }

    /** One round of `randpool_stir`. */
    method StirOnce(context: Md2Context, ghost q: Pool, ghost n: nat)
      requires Valid() && context.Valid() && context.perm == world.perm && Legal(q)
      requires pool != context.buffer && pool != context.state && pool != context.checksum
      requires StirRounds(world, q, n) == Hashing(Model(), context.consumed)
      modifies this`posAdd, this`counter, this`events, pool
      modifies context`counter, context`consumed, context.buffer, context.state, context.checksum
      ensures Valid() && context.Valid()
      ensures StirRounds(world, q, n + 1) == Hashing(Model(), context.consumed)
    {
      hide Legal, Push, Md2Context.Filled, Finished, Hash;
      var tmp := world.tmpBuf(events);
      context.Update(pool[..]);
      context.Update(tmp);
      var digest := context.End();
      PushBytes(digest[..]);
      counter := Wrap(counter + 1);
      events := events + 1;
      assert StirRounds(world, q, n + 1) == Hashing(Model(), context.consumed);
    }

    /** `randpool_get`. */
    method Get(data: array<byte>, n: uint32)
      requires Valid() && n <= data.Length && data != pool
      modifies this`posAdd, this`posGet, this`entropy, this`counter, this`lastCounter, this`events, pool, data
      ensures Valid() && Model() == PoolAfterGet(world, old(Model()), n)
      ensures data[..n] == Output(world, old(Model()), n)
      ensures forall k :: n <= k < data.Length ==> data[k] == old(data[k])
    {
      hide Legal, GetBlocks, Prefixed, Md2Context.Filled, PoolAfterGet, Output;
      ghost var p := Model();
      var i := posGet;
      var left: nat := n;
      var posWrite: nat := 0;
      GetAllowed(Model());
      LegalPosition(Model(), i);
      assert DIGEST_LEN + i <= pool.Length;
      var context := new Md2Context(world.perm);
      GetStart(world, p, data[..0], n);
      while left > 0
        invariant posWrite + left == n
        invariant Valid() && Legal(Model().(posGet := i)) && context.Valid()
        invariant posGet == p.posGet && entropy == p.entropy
        invariant GetBlocks(world, p, [], p.posGet, n)
                  == Prefixed(data[..posWrite], GetBlocks(world, Model(), context.consumed, i, left))
        invariant forall k :: n <= k < data.Length ==> data[k] == old(data[k])
      {
        var len := if left < DIGEST_LEN then left else DIGEST_LEN;
        ghost var done := data[..posWrite];
        i := GetOnce(context, data, posWrite, i, left, len, done);
        posWrite := posWrite + len;
        left := left - len;
      }
      GetEnd(world, Model(), context.consumed, i, data[..posWrite]);
      GetIs(world, p, n, Got(Model(), i, data[..posWrite]));
      posGet := i;
      entropy := Wrap(entropy - n);
    }

    /** One round of `randpool_get`. */
    method GetOnce(context: Md2Context, data: array<byte>, posWrite: nat, i: nat, left: nat, len: nat,
                   ghost done: seq<byte>)
      returns (j: nat)
      requires Valid() && Legal(Model().(posGet := i)) && context.Valid() && context.perm == world.perm
      requires pool != context.buffer && pool != context.state && pool != context.checksum
      requires data != context.buffer && data != context.state && data != context.checksum && data != pool
      requires left > 0 && len == (if left < DIGEST_LEN then left else DIGEST_LEN)
      requires posWrite + left <= data.Length && done == data[..posWrite]
      modifies this`posAdd, this`entropy, this`counter, this`lastCounter, this`events, pool, data
      modifies context`counter, context`consumed, context.buffer, context.state, context.checksum
      ensures Valid() && Legal(Model().(posGet := j)) && context.Valid()
      ensures entropy == old(entropy)
      ensures Prefixed(done, GetBlocks(world, old(Model()), old(context.consumed), i, left))
              == Prefixed(data[..posWrite + len], GetBlocks(world, Model(), context.consumed, j, left - len))
      ensures forall k :: posWrite + len <= k < data.Length ==> data[k] == old(data[k])
    {
      hide Legal, GetBlocks, Prefixed, Md2Context.Filled, Finished, Hash, Stirred;
      ghost var p, m := Model(), context.consumed;
      LegalPosition(p, i);
      context.Update(pool[i..i + DIGEST_LEN]);
      var digest := context.End();
      ghost var h := digest[..];
      forall k | 0 <= k < len {
        data[posWrite + k] := digest[k];
      }
      assert data[..posWrite + len] == done + h[..len];
      j := (i + DIGEST_LEN) % pool.Length;
      if j < DIGEST_LEN {
        Stir();
        j := posGet;
      }
      GetStep(world, p, m, i, left, len, done, h);
    }
  }

  lemma LegalPosition(p: Pool, i: nat)
    requires Legal(p.(posGet := i))
    ensures 0 < i + DIGEST_LEN <= |p.cells|
  {
  }

  lemma GetStart(w: World, p: Pool, done: seq<byte>, n: nat)
    requires Legal(p) && done == []
    ensures GetBlocks(w, p, [], p.posGet, n) == Prefixed(done, GetBlocks(w, p, [], p.posGet, n))
  {
    hide GetBlocks;
    var g := GetBlocks(w, p, [], p.posGet, n);
    assert done + g.output == g.output;
  }

  lemma GetStep(w: World, p: Pool, message: seq<byte>, i: nat, n: nat, len: nat, done: seq<byte>, h: seq<byte>)
    requires Legal(p) && Legal(p.(posGet := i))
    requires n > 0 && len == (if n < DIGEST_LEN then n else DIGEST_LEN)
    requires h == Hash(w.perm, Finished(w.perm, message + p.cells[i..i + DIGEST_LEN]))
    ensures var m := Finished(w.perm, message + p.cells[i..i + DIGEST_LEN]);
            Prefixed(done, GetBlocks(w, p, message, i, n))
            == Prefixed(done + h[..len], GetBlocks(w, NextPool(w, p, i), m, NextPos(p, i), n - len))
  {
    hide NextPool, NextPos, Hash, Finished;
    var m := Finished(w.perm, message + p.cells[i..i + DIGEST_LEN]);
    var g := GetBlocks(w, NextPool(w, p, i), m, NextPos(p, i), n - len);
    assert done + (h[..len] + g.output) == done + h[..len] + g.output;
  }

  lemma GetEnd(w: World, p: Pool, message: seq<byte>, i: nat, done: seq<byte>)
    requires Legal(p) && Legal(p.(posGet := i))
    ensures Prefixed(done, GetBlocks(w, p, message, i, 0)) == Got(p, i, done)
  {
    assert done + [] == done;
  }

  lemma GetIs(w: World, p: Pool, n: uint32, g: Got)
    requires Legal(p) && g == GetBlocks(w, p, [], p.posGet, n)
    ensures g.output == Output(w, p, n)
    ensures g.pool.(posGet := g.pos, entropy := Wrap(p.entropy - n)) == PoolAfterGet(w, p, n)
    ensures Legal(PoolAfterGet(w, p, n))
  {
    hide GetBlocks, Legal;
  }

  function Prefixed(done: seq<byte>, g: Got): Got {
    g.(output := done + g.output)
  }

  lemma GetAllowed(p: Pool)
    requires Legal(p)
    ensures p.(posGet := p.posGet) == p
  {
  }

  lemma NoData()
    ensures DataLen(0) == 0
  {
  }

  lemma StirredIs(w: World, p: Pool, r: Pool)
    requires Legal(p)
    requires var q := StirRounds(w, Added(w, p, [], 0), |p.cells| / DIGEST_LEN).pool;
             r == Added(w, q, [], 0).(entropy := p.entropy)
    ensures r == Stirred(w, p) && Legal(r)
  {
    hide Legal, Added, StirRounds;
  }

  lemma StirStart(w: World, p: Pool)
    requires Legal(p)
    ensures StirRounds(w, p, 0) == Hashing(p, [])
  {
  }

  lemma ContributionIs(w: World, p: Pool, data: seq<byte>, event: uint32, delta: uint32)
    requires event == w.clock(p.events) && delta == Delta(w, p)
    ensures Contribution(w, p, data) == data + Memory(w.cpu, event) + SEP + Memory(w.cpu, delta)
  {
    hide Memory, Delta;
  }

  lemma FourPushes(p: Pool, a: seq<byte>, b: seq<byte>, c: seq<byte>, d: seq<byte>)
    requires Legal(p)
    ensures Push(Push(Push(Push(p, a), b), c), d) == Push(p, a + b + c + d)
  {
    hide Push;
    PushPush(p, a, b);
    PushPush(p, a + b, c);
    PushPush(p, a + b + c, d);
  }

  lemma AddedIs(w: World, p: Pool, data: seq<byte>, bits: uint32, r: Pool)
    requires Legal(p)
    requires r == Push(p, Contribution(w, p, data)).(
                    entropy := Wrap(p.entropy + Wrap(bits + BitLength(Delta(w, p) % 0x100))),
                    lastCounter := w.clock(p.events),
                    events := p.events + 1)
    ensures r == Added(w, p, data, bits) && Legal(r)
  {
    hide Push, Contribution, BitLength, Delta, Legal;
  }

  lemma WrapTwice(a: int, b: int)
    ensures Wrap(Wrap(a) + b) == Wrap(a + b)
  {
  }

  /** The loop that counts the bits of the time since the last use. */
  method AddBits(bits: uint32, time: nat) returns (r: uint32)
    ensures r == Wrap(bits + BitLength(time))
  {
    r := bits;
    var delta := time;
    while delta != 0
      invariant Wrap(r + BitLength(delta)) == Wrap(bits + BitLength(time))
    {
      hide Wrap;
      WrapTwice(r + 1, BitLength(delta / 2));
      delta := delta / 2;
      r := Wrap(r + 1);
    }
  }

  /** One round of the loop of `randpool_push`. */
  lemma PushNext(cells: seq<byte>, pos: nat, bytes: seq<byte>, j: nat)
    requires pos < |cells| && j < |bytes|
    ensures var r, i := PushCells(cells, pos, bytes[..j]), (pos + j) % |cells|;
            && PushCells(cells, pos, bytes[..j + 1]) == r[i := Xor8(r[i], bytes[j])]
            && (i + 1) % |cells| == (pos + (j + 1)) % |cells|
  {
    hide PushCells, Xor8;
    PushSnoc(cells, pos, bytes[..j], bytes[j]);
    assert bytes[..j] + [bytes[j]] == bytes[..j + 1];
    WrappedSum(pos + j, 1, |cells|);
  }

  lemma PushNothing(cells: seq<byte>, pos: nat)
    requires pos < |cells|
    ensures PushCells(cells, pos, []) == cells
  {
  }
}
