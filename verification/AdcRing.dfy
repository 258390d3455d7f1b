/** The ring buffer between the DMA controller of an ADS79xx converter and its reader
    (bertos/drv/ads79xx.c, adc.h).

    Addresses are integers. One completed transfer and the handler that follows it are one step, and so are the
    event wait and the check of the counter in the reader; the steps may come in any order. */
module AdcRing {
  import opened Arithmetic

  /** What a stream is started with; `blockLen` is the length of one DMA transfer, that is the hook's slice
      length if there is a hook and `sliceLen` otherwise. */
  datatype Config = Config(base: int, bufLen: nat, sliceLen: nat, blockLen: nat)

  /** The assertions of `adc_dmaStartStreaming` and `ads79xx_dmaStart`, for a buffer that is not empty. */
  predicate Accepted(c: Config) {
    && c.sliceLen > 0 && c.blockLen > 0 && c.bufLen > 0
    && c.bufLen % c.sliceLen == 0
    && c.bufLen % c.blockLen == 0 && c.sliceLen % c.blockLen == 0
    && c.blockLen % 2 == 0
  }

  function MoveAndWrap(ptr: int, len: nat, c: Config): int {
    if ptr + len == c.base + c.bufLen then c.base else ptr + len
  }

  /** The pointers of the handler, the two blocks that the controller knows, and how often the handler has
      signalled a slice. */
  datatype Dma = Dma(tail: int, sliceEnd: int, current: int, next: int, signals: nat)

  /** `ads79xx_dmaStart`. */
  function Start(c: Config): Dma {
    Dma(c.base, c.base + c.sliceLen, c.base, c.base + c.blockLen, 0)
  }

  /** A transfer completes, the controller goes on with its next block, and `ads_dmaIrqHandler` runs. */
  function Interrupt(c: Config, d: Dma): Dma {
    var tail := MoveAndWrap(d.tail, c.blockLen, c);
    var mem := MoveAndWrap(tail, c.blockLen, c);
    if tail == d.sliceEnd then
      Dma(tail, MoveAndWrap(d.sliceEnd, c.sliceLen, c), d.next, mem, d.signals + 1)
    else
      Dma(tail, d.sliceEnd, d.next, mem, d.signals)
  }

  function After(c: Config, interrupts: nat): Dma {
    if interrupts == 0 then Start(c) else Interrupt(c, After(c, interrupts - 1))
  }

  // ----- Places in the ring -----

  /** Where a position in the stream of samples lies in the buffer. */
  function Place(c: Config, position: nat): int
    requires c.bufLen > 0
  {
    c.base + position % c.bufLen
  }

  lemma Units(len: nat, unit: nat)
    requires unit > 0 && len > 0 && len % unit == 0
    ensures len / unit > 0 && len == len / unit * unit
  {
    FloorBounds(len, unit);
    AtLeast(1, unit);
  }

  lemma NextRemainder(k: nat, n: nat)
    requires n > 0
    ensures (k + 1) % n == if k % n + 1 == n then 0 else k % n + 1
  {
    FloorBounds(k, n);
    if k % n + 1 == n {
      RemainderIs(k + 1, k / n + 1, 0, n);
    } else {
      RemainderIs(k + 1, k / n, k % n + 1, n);
    }
  }

  /** A pointer that moves in steps which divide the buffer meets its end exactly. */
  lemma MoveIsNextPlace(c: Config, k: nat, unit: nat)
    requires unit > 0 && c.bufLen > 0 && c.bufLen % unit == 0
    ensures c.base <= Place(c, k * unit) <= c.base + c.bufLen - unit
    ensures MoveAndWrap(Place(c, k * unit), unit, c) == Place(c, (k + 1) * unit)
  {
    var n := c.bufLen / unit;
    Units(c.bufLen, unit);
    ScaledRemainder(k, n, unit);
    ScaledRemainder(k + 1, n, unit);
    NextRemainder(k, n);
    Distribute(k % n, 1, unit);
    if k % n + 1 < n {
      TimesMonotone(k % n + 2, n, unit);
      Distribute(k % n + 1, 1, unit);
    }
  }

  lemma {:induction false} TailAfter(c: Config, i: nat)
    requires Accepted(c)
    ensures After(c, i).tail == Place(c, i * c.blockLen)
  {
    if i > 0 {
      TailAfter(c, i - 1);
      MoveIsNextPlace(c, i - 1, c.blockLen);
    }
  }

  /** How many whole slices i blocks make. */
  function Slices(c: Config, i: nat): nat
    requires c.sliceLen > 0
  {
    i * c.blockLen / c.sliceLen
  }

  /** i blocks fill some slices and a part of the next one, in which block i fits. */
  lemma BlockInSlice(c: Config, i: nat)
    requires Accepted(c)
    ensures var q := Slices(c, i);
            var rest := i * c.blockLen - q * c.sliceLen;
            && 0 <= rest <= c.sliceLen - c.blockLen
            && Slices(c, i + 1) == (if rest + c.blockLen == c.sliceLen then q + 1 else q)
            && (i + 1) * c.blockLen == q * c.sliceLen + rest + c.blockLen
  {
    var a, s, h := c.sliceLen / c.blockLen, c.sliceLen, c.blockLen;
    Units(s, h);
    ScaledRemainder(i, a, h);
    var x, r := i * h, i % a * h;
    FloorBounds(x, s);
    assert x % s == r;
    var q := x / s;
    Distribute(i, 1, h);
    Distribute(q, 1, s);
    if r + h == s {
      RemainderIs(x + h, q + 1, 0, s);
    } else {
      RemainderIs(x + h, q, r + h, s);
    }
  }

  /** A position inside slice q of the stream lies in slice q mod n of a buffer of n slices. */
  lemma PlaceInSlice(c: Config, q: nat, rest: nat)
    requires Accepted(c) && rest < c.sliceLen
    ensures var n := c.bufLen / c.sliceLen;
            && n > 0
            && Place(c, q * c.sliceLen) == c.base + q % n * c.sliceLen
            && Place(c, q * c.sliceLen + rest) == c.base + q % n * c.sliceLen + rest
            && 0 <= q % n * c.sliceLen <= c.bufLen - c.sliceLen
  {
    var s, n := c.sliceLen, c.bufLen / c.sliceLen;
    Units(c.bufLen, s);
    ScaledRemainder(q, n, s);
    TimesMonotone(0, q % n, s);
    WrappedSum(q * s, rest, c.bufLen);
    RemainderIs(q % n * s + rest, 0, q % n * s + rest, c.bufLen);
  }

  lemma NoMultiple(a: int, b: int, r: int, s: int)
    requires 0 < r < s
    ensures a * s + r != b * s
  {
    Distribute(b, -a, s);
    if b > a {
      AtLeast(b - a, s);
    } else if b < a {
      AtLeast(a - b, s);
      Distribute(a, -b, s);
    }
  }

  /** With two slices or more, the handler's comparison of two wrapped pointers tells exactly when a slice is
      full. */
  lemma EndReached(c: Config, i: nat)
    requires Accepted(c) && c.bufLen >= 2 * c.sliceLen
    ensures var q := Slices(c, i);
            Place(c, (i + 1) * c.blockLen) == Place(c, (q + 1) * c.sliceLen) <==> Slices(c, i + 1) == q + 1
  {
    var q, s, h := Slices(c, i), c.sliceLen, c.blockLen;
    var n := c.bufLen / s;
    var rest := i * h - q * s;
    BlockInSlice(c, i);
    PlaceInSlice(c, q + 1, 0);
    if rest + h == s {
      Distribute(q, 1, s);
    } else {
      PlaceInSlice(c, q, rest + h);
      NoMultiple(q % n, (q + 1) % n, rest + h, s);
    }
  }

  lemma {:induction false} SignalsAfter(c: Config, i: nat)
    requires Accepted(c) && c.bufLen >= 2 * c.sliceLen
    ensures After(c, i).signals == Slices(c, i)
    ensures After(c, i).sliceEnd == Place(c, (Slices(c, i) + 1) * c.sliceLen)
  {
    hide Slices, Place;
    if i == 0 {
      FirstSlice(c);
    } else {
      SignalsAfter(c, i - 1);
      TailAfter(c, i);
      TailAfter(c, i - 1);
      EndReached(c, i - 1);
      SlicesGrow(c, i - 1);
      MoveIsNextPlace(c, i - 1, c.blockLen);
      MoveIsNextPlace(c, Slices(c, i - 1) + 1, c.sliceLen);
    }
  }

  lemma SlicesGrow(c: Config, i: nat)
    requires Accepted(c)
    ensures Slices(c, i) <= Slices(c, i + 1) <= Slices(c, i) + 1
  {
    BlockInSlice(c, i);
  }

  lemma FirstSlice(c: Config)
    requires Accepted(c) && c.bufLen >= 2 * c.sliceLen
    ensures Slices(c, 0) == 0 && Place(c, (Slices(c, 0) + 1) * c.sliceLen) == c.base + c.sliceLen
  {
    RemainderIs(c.sliceLen, 0, c.sliceLen, c.bufLen);
    FloorBounds(0, c.sliceLen);
  }

  /** In a buffer of one slice the end of the slice is the end of the buffer, which no wrapped pointer ever
      equals. */
  lemma {:induction false} NeverSignals(c: Config, i: nat)
    requires Accepted(c) && c.bufLen == c.sliceLen
    ensures After(c, i).signals == 0 && After(c, i).sliceEnd == c.base + c.bufLen
  {
    if i > 0 {
      NeverSignals(c, i - 1);
      TailAfter(c, i - 1);
      MoveIsNextPlace(c, i - 1, c.blockLen);
      MoveIsNextPlace(c, i, c.blockLen);
    }
  }

  lemma OneOrMore(len: nat, unit: nat)
    requires unit > 0 && len > 0 && len % unit == 0
    ensures len < 2 * unit ==> len == unit
  {
    Units(len, unit);
    if len / unit >= 2 {
      TimesMonotone(2, len / unit, unit);
    }
  }

  /** Every full slice is signalled, for ever, exactly if the buffer holds two slices or more; the assertions
      also accept one slice. */
  lemma SignalsEverySlice(c: Config)
    requires Accepted(c)
    ensures (forall i: nat :: After(c, i).signals == Slices(c, i)) <==> c.bufLen >= 2 * c.sliceLen
  {
    hide Slices, After;
    if c.bufLen >= 2 * c.sliceLen {
      forall i: nat ensures After(c, i).signals == Slices(c, i) {
        SignalsAfter(c, i);
      }
    } else {
      OneOrMore(c.bufLen, c.sliceLen);
      var i := c.sliceLen / c.blockLen;
      FirstFull(c, i);
      NeverSignals(c, i);
      assert After(c, i).signals != Slices(c, i);
    }
  }

  lemma FirstFull(c: Config, i: nat)
    requires Accepted(c) && i == c.sliceLen / c.blockLen
    ensures Slices(c, i) == 1
  {
    Units(c.sliceLen, c.blockLen);
    RemainderIs(c.sliceLen, 1, 0, c.sliceLen);
  }

  // ----- The controller stays inside the buffer -----

  predicate Inside(c: Config, block: int) {
    c.base <= block && block + c.blockLen <= c.base + c.bufLen
  }

  lemma {:induction false} DmaAfter(c: Config, i: nat)
    requires Accepted(c) && c.bufLen >= 2 * c.blockLen
    ensures After(c, i).current == Place(c, i * c.blockLen)
    ensures After(c, i).next == Place(c, (i + 1) * c.blockLen)
    ensures Inside(c, After(c, i).current) && Inside(c, After(c, i).next)
  {
    MoveIsNextPlace(c, i, c.blockLen);
    MoveIsNextPlace(c, i + 1, c.blockLen);
    if i == 0 {
      RemainderIs(c.blockLen, 0, c.blockLen, c.bufLen);
    } else {
      DmaAfter(c, i - 1);
      TailAfter(c, i - 1);
      MoveIsNextPlace(c, i - 1, c.blockLen);
    }
  }

  /** The controller never leaves the buffer exactly if the buffer holds two blocks or more; with one block,
      the second transfer already lies behind its end. */
  lemma StaysInside(c: Config)
    requires Accepted(c)
    ensures (forall i: nat :: Inside(c, After(c, i).current)) <==> c.bufLen >= 2 * c.blockLen
  {
    if c.bufLen >= 2 * c.blockLen {
      forall i: nat ensures Inside(c, After(c, i).current) {
        DmaAfter(c, i);
      }
    } else {
      OneOrMore(c.bufLen, c.blockLen);
      assert After(c, 1).current == c.base + c.bufLen;
      assert !Inside(c, After(c, 1).current);
    }
  }

  /** A buffer of length zero passes the assertions too, and its pointers never wrap. */
  lemma {:induction false} EmptyBufferLeft(c: Config, i: nat)
    requires c.bufLen == 0 && Accepted(c.(bufLen := c.sliceLen))
    ensures After(c, i).tail == After(c, i).current == c.base + i * c.blockLen
    ensures After(c, i).next == c.base + (i + 1) * c.blockLen
    ensures !Inside(c, After(c, i).current)
  {
    Distribute(i, 1, c.blockLen);
    TimesMonotone(0, i, c.blockLen);
    if i > 0 {
      EmptyBufferLeft(c, i - 1);
      Distribute(i - 1, 1, c.blockLen);
    }
  }

  // ----- What the reader may touch -----

  predicate Overlap(a: int, aLen: nat, b: int, bLen: nat) {
    a < b + bLen && b < a + aLen
  }

  lemma SliceApart(a: nat, b: nat, rest: nat, s: nat, h: nat)
    requires rest + h <= s && h > 0
    ensures Overlap(a * s, s, b * s + rest, h) <==> a == b
  {
    if a < b {
      TimesMonotone(a + 1, b, s);
      Distribute(a, 1, s);
    } else if b < a {
      TimesMonotone(b + 1, a, s);
      Distribute(b, 1, s);
    }
  }

  lemma SameRemainder(a: nat, b: nat, n: nat)
    requires n > 0 && a <= b
    ensures a % n == b % n <==> (b - a) % n == 0
  {
    FloorBounds(a, n);
    FloorBounds(b, n);
    Distribute(b / n, -(a / n), n);
    if a % n == b % n {
      RemainderIs(b - a, b / n - a / n, 0, n);
    } else if (b - a) % n == 0 {
      FloorBounds(b - a, n);
      Distribute(a / n, (b - a) / n, n);
      RemainderIs(b, a / n + (b - a) / n, a % n, n);
    }
  }

  /** Slice k of the stream is being overwritten during block i exactly if the slice that block i belongs to is a
      whole number of rounds ahead of it. */
  lemma Overwritten(c: Config, k: nat, i: nat)
    requires Accepted(c) && k <= Slices(c, i)
    ensures c.bufLen / c.sliceLen > 0
    ensures Overlap(Place(c, k * c.sliceLen), c.sliceLen, Place(c, i * c.blockLen), c.blockLen)
            <==> (Slices(c, i) - k) % (c.bufLen / c.sliceLen) == 0
  {
    var q, s, n := Slices(c, i), c.sliceLen, c.bufLen / c.sliceLen;
    var rest := i * c.blockLen - q * s;
    BlockInSlice(c, i);
    PlaceInSlice(c, q, rest);
    PlaceInSlice(c, k, 0);
    SliceApart(k % n, q % n, rest, s, c.blockLen);
    SameRemainder(k, q, n);
  }

  /** The block that has just been filled is not the one that is being filled. */
  lemma BlockApart(c: Config, i: nat)
    requires Accepted(c) && c.bufLen >= 2 * c.blockLen
    ensures !Overlap(Place(c, i * c.blockLen), c.blockLen, Place(c, (i + 1) * c.blockLen), c.blockLen)
  {
    var blocks := c.(sliceLen := c.blockLen);
    var n := c.bufLen / c.blockLen;
    RemainderIs(c.blockLen, 1, 0, c.blockLen);
    RemainderIs((i + 1) * c.blockLen, i + 1, 0, c.blockLen);
    Units(c.bufLen, c.blockLen);
    Overwritten(blocks, i, i + 1);
    if n == 1 {
      assert false;
    }
    RemainderIs(1, 0, 1, n);
  }

  lemma SignalMeansTwoSlices(c: Config, i: nat)
    requires Accepted(c) && After(c, i).signals > 0
    ensures c.bufLen >= 2 * c.sliceLen && c.bufLen >= 2 * c.blockLen
    ensures After(c, i).signals == Slices(c, i)
  {
    if c.bufLen < 2 * c.sliceLen {
      OneOrMore(c.bufLen, c.sliceLen);
      NeverSignals(c, i);
    } else {
      SignalsAfter(c, i);
      BlockInSlice(c, 0);
    }
  }

  /** The controller is writing to the slice that starts here. */
  predicate Writing(c: Config, i: nat, slice: int) {
    Overlap(slice, c.sliceLen, After(c, i).current, c.blockLen)
  }

  /** After k waits and more than k signals, slice k is complete, and it is being overwritten exactly if the
      signals are a whole number of rounds ahead; in particular not if it was the last one. */
  lemma ReturnedSlice(c: Config, i: nat, k: nat)
    requires Accepted(c) && k < After(c, i).signals
    ensures c.bufLen / c.sliceLen >= 2
    ensures After(c, i).signals == Slices(c, i)
    ensures Writing(c, i, Place(c, k * c.sliceLen))
            <==> (After(c, i).signals - k) % (c.bufLen / c.sliceLen) == 0
    ensures k + 1 == After(c, i).signals ==> !Writing(c, i, Place(c, k * c.sliceLen))
  {
    hide After, Slices, Place, Overlap;
    SignalMeansTwoSlices(c, i);
    DmaAfter(c, i);
    Overwritten(c, k, i);
    AtLeastTwo(c);
  }

  /** The handler gives its hook the block that has just been filled, while the controller fills another. */
  lemma HookBlock(c: Config, i: nat)
    requires Accepted(c) && c.bufLen >= 2 * c.blockLen
    ensures After(c, i).tail == After(c, i).current == Place(c, i * c.blockLen)
    ensures !Overlap(After(c, i).tail, c.blockLen, After(c, i + 1).current, c.blockLen)
  {
    hide After, Place, Overlap;
    TailAfter(c, i);
    DmaAfter(c, i);
    DmaAfter(c, i + 1);
    BlockApart(c, i);
  }

  // ----- The reader -----

  /** The reader's pointer, the counter and the event it shares with the handler, whether it has passed its wait
      and not yet looked at the counter, how many waits it has completed, how many signals it has seen, and
      whether every wait so far found exactly one. */
  datatype Reader = Reader(head: int, cnt: nat, event: bool, taken: bool, waits: nat, seen: nat, clean: bool)

  predicate Consistent(c: Config, i: nat, r: Reader) {
    var signals := After(c, i).signals;
    && Accepted(c)
    && r.head == Place(c, r.waits * c.sliceLen)
    && r.cnt + r.seen == signals
    && (r.clean ==> r.seen == r.waits)
    && r.waits + (if r.taken then 1 else 0) + (if r.event then 1 else 0) <= signals
  }

  lemma StartConsistent(c: Config)
    requires Accepted(c)
    ensures Consistent(c, 0, Reader(c.base, 0, false, false, 0, 0, true))
  {
    assert 0 * c.sliceLen == 0;
    RemainderIs(0, 0, 0, c.bufLen);
  }

  /** The handler keeps the reader's state consistent, wherever the reader is. */
  lemma IrqConsistent(c: Config, i: nat, r: Reader)
    requires Consistent(c, i, r)
    ensures var raised := After(c, i + 1).signals > After(c, i).signals;
            && After(c, i + 1) == Interrupt(c, After(c, i))
            && Consistent(c, i + 1, if raised then r.(cnt := r.cnt + 1, event := true) else r)
  {
    hide Place, Accepted;
  }

  lemma TakeConsistent(c: Config, i: nat, r: Reader)
    requires Consistent(c, i, r) && r.taken
    ensures Consistent(c, i, Reader(MoveAndWrap(r.head, c.sliceLen, c), 0, r.event, false, r.waits + 1,
                                    r.seen + r.cnt, r.clean && r.cnt == 1))
  {
    MoveIsNextPlace(c, r.waits, c.sliceLen);
  }

  // ----- The program -----

  class AdcContext {
    var baseBuf: int
    var bufLen: nat
    var sliceLen: nat
    var hookLen: nat
    var head: int
    var tail: int
    var sliceEnd: int

    /** Slices signalled since the reader last looked, and the event it waits for. */
    var cnt: nat
    var event: bool

    /** The reader has passed its wait and not yet looked at `cnt`. */
    var taken: bool

    /** The block the DMA controller is filling, and the one it goes on with. */
    var dmaCurrent: int
    var dmaNext: int

    /** Interrupts and completed waits since the start, signals that the reader has seen, and whether every wait
        so far found exactly one. */
    ghost var interrupts: nat
    ghost var waits: nat
    ghost var seen: nat
    ghost var clean: bool

    constructor () {
      hookLen := 0;
    }

    function Stream(): Config
      reads this`baseBuf, this`bufLen, this`sliceLen, this`hookLen
    {
      Config(baseBuf, bufLen, sliceLen, if hookLen > 0 then hookLen else sliceLen)
    }

    ghost function Signals(): nat
      reads this`baseBuf, this`bufLen, this`sliceLen, this`hookLen, this`interrupts
    {
      After(Stream(), interrupts).signals
    }

    ghost function ReaderState(): Reader
      reads this
    {
      Reader(head, cnt, event, taken, waits, seen, clean)
    }

    ghost predicate Valid()
      reads this
    {
      && Consistent(Stream(), interrupts, ReaderState())
      && After(Stream(), interrupts) == Dma(tail, sliceEnd, dmaCurrent, dmaNext, Signals())
    }

    /** `adc_setStreamingHook`, before streaming starts. */
    method SetHook(len: nat)
      requires len > 0
      modifies this`hookLen
      ensures hookLen == len
    {
      hookLen := len;
    }

    /** `adc_dmaStartStreaming`. */
    method StartStreaming(buf: int, len: nat, slice: nat)
      requires Accepted(Config(buf, len, slice, if hookLen > 0 then hookLen else slice))
      modifies this
      ensures Valid() && hookLen == old(hookLen)
      ensures Stream() == Config(buf, len, slice, if hookLen > 0 then hookLen else slice)
      ensures interrupts == waits == seen == Signals() == 0 && clean && !taken && !event
    {
      hide Accepted, Place, After, Valid;
      bufLen := len;
      baseBuf, head, tail := buf, buf, buf;
      sliceLen := slice;
      assert Stream() == Config(buf, len, slice, if hookLen > 0 then hookLen else slice);
      DmaStart();
    }

    /** `ads79xx_dmaStart`. */
    method DmaStart()
      requires Accepted(Stream())
      modifies this`head, this`tail, this`sliceEnd, this`cnt, this`event, this`taken, this`dmaCurrent, this`dmaNext
      modifies this`interrupts, this`waits, this`seen, this`clean
      ensures Valid()
      ensures interrupts == waits == seen == Signals() == 0 && clean && !taken && !event
    {
      hide Consistent, After, Accepted;
      StartConsistent(Stream());
      StartIs(Stream());
      cnt, event, taken := 0, false, false;
      head, tail := baseBuf, baseBuf;
      sliceEnd := tail + sliceLen;
      dmaCurrent := tail;
      var len := if hookLen > 0 then hookLen else sliceLen;
      dmaNext := tail + len;
      interrupts, waits, seen, clean := 0, 0, 0, true;
    }

    /** A transfer completes and `ads_dmaIrqHandler` runs; `block` is what the handler gives to the hook. */
    method Irq() returns (block: int)
      requires Valid()
      modifies this`dmaCurrent, this`dmaNext, this`tail, this`sliceEnd, this`cnt, this`event, this`interrupts
      ensures Valid() && interrupts == old(interrupts) + 1
      ensures event == (old(event) || Signals() > old(Signals()))
      ensures block == old(tail)
    {
      hide Consistent, After;
      IrqConsistent(Stream(), interrupts, ReaderState());
      dmaCurrent := dmaNext;
      var end := tail;
      block := end;
      var len := if hookLen > 0 then hookLen else sliceLen;
      end := MoveAndWrap(end, len, Stream());
      var mem := MoveAndWrap(end, len, Stream());
      dmaNext := mem;
      if end == sliceEnd {
        sliceEnd := MoveAndWrap(sliceEnd, sliceLen, Stream());
        cnt := cnt + 1;
        event := true;
      }
      tail := end;
      interrupts := interrupts + 1;
    }

    /** The reader's wait for the event. */
    method WaitEvent()
      requires Valid() && event && !taken
      modifies this`event, this`taken
      ensures Valid() && taken && !event
    {
      event, taken := false, true;
    }

    /** The rest of `ads79xx_wait`; `ok` is what its assertion checks. A slice that is returned is always
        complete. A reader whose waits all found exactly one signal gets the slice that was completed last, and
        the controller is not writing to it. */
    method TakeSlice() returns (slice: int, ok: bool)
      requires Valid() && taken
      modifies this`cnt, this`head, this`taken, this`waits, this`seen, this`clean
      ensures Valid() && waits == old(waits) + 1 && cnt == 0 && !taken
      ensures ok == (old(cnt) == 1) && clean == (old(clean) && ok)
      ensures slice == Place(Stream(), old(waits) * sliceLen) && old(waits) < Signals()
      ensures clean ==> waits == Signals() && !Writing(Stream(), interrupts, slice)
    {
      hide Accepted, Place, After, Writing;
      TakeConsistent(Stream(), interrupts, ReaderState());
      ReturnedSlice(Stream(), interrupts, waits);
      ok := cnt == 1;
      clean := clean && ok;
      seen := seen + cnt;
      cnt := 0;
      slice := head;
      head := MoveAndWrap(head, sliceLen, Stream());
      taken := false;
      waits := waits + 1;
    }
  }

  lemma StartIs(c: Config)
    ensures After(c, 0) == Start(c)
  {
  }

  lemma AtLeastTwo(c: Config)
    requires Accepted(c) && c.bufLen >= 2 * c.sliceLen
    ensures c.bufLen / c.sliceLen >= 2 && 1 % (c.bufLen / c.sliceLen) == 1
  {
    FloorAtLeast(c.bufLen, c.sliceLen, 2);
    RemainderIs(1, 0, 1, c.bufLen / c.sliceLen);
  }
}
