/** Long division of bit strings over GF(2), the mathematics behind the three CRCs.

    A polynomial is its sequence of coefficients, highest power first. A generator of degree w is given by `g`,
    its w coefficients below the leading one; its constant term must be 1. All results hold for every such
    generator, every start value and every message. */
module PolyDivision {

  type Bits = seq<bool>

  predicate Generator(g: Bits) {
    |g| > 0 && g[|g| - 1]
  }

  function Zeros(n: nat): (z: Bits)
    ensures |z| == n && forall i :: 0 <= i < n ==> !z[i]
  {
    seq(n, _ => false)
  }

  function Xor(a: Bits, b: Bits): (c: Bits)
    requires |a| == |b|
    ensures |c| == |a| && forall i :: 0 <= i < |a| ==> c[i] == (a[i] != b[i])
  {
    seq(|a|, i requires 0 <= i < |a| => a[i] != b[i])
  }

  function Scale(on: bool, g: Bits): (s: Bits)
    ensures |s| == |g| && forall i :: 0 <= i < |g| ==> s[i] == (on && g[i])
  {
    if on then g else Zeros(|g|)
  }

  /** One step of the division register: shift left, and subtract the generator when a 1 falls out. */
  function Step(g: Bits, r: Bits, bit: bool): (s: Bits)
    requires Generator(g) && |r| == |g|
    ensures |s| == |g|
    ensures forall i :: 0 <= i < |g| ==> s[i] == ((i + 1 < |g| && r[i + 1]) != (r[0] != bit && g[i]))
  {
    seq(|g|, i requires 0 <= i < |g| => (i + 1 < |g| && r[i + 1]) != (r[0] != bit && g[i]))
  }

  function Feed(g: Bits, r: Bits, bits: Bits): (s: Bits)
    requires Generator(g) && |r| == |g|
    ensures |s| == |g|
    decreases |bits|
  {
    if bits == [] then r else Feed(g, Step(g, r, bits[0]), bits[1..])
  }

  lemma {:induction false} FeedConcat(g: Bits, r: Bits, a: Bits, b: Bits)
    requires Generator(g) && |r| == |g|
    ensures Feed(g, r, a + b) == Feed(g, Feed(g, r, a), b)
    decreases |a|
  {
    if a == [] {
      assert a + b == b;
    } else {
      assert (a + b)[1..] == a[1..] + b;
      FeedConcat(g, Step(g, r, a[0]), a[1..], b);
    }
  }

  // ----- Linearity and reversibility -----

  lemma StepLinear(g: Bits, r: Bits, s: Bits, a: bool, b: bool)
    requires Generator(g) && |r| == |s| == |g|
    ensures Xor(Step(g, r, a), Step(g, s, b)) == Step(g, Xor(r, s), a != b)
  {}

  /** The remainders of two messages differ by the remainder of their difference. */
  lemma {:induction false} FeedLinear(g: Bits, r: Bits, s: Bits, a: Bits, b: Bits)
    requires Generator(g) && |r| == |s| == |g| && |a| == |b|
    ensures Xor(Feed(g, r, a), Feed(g, s, b)) == Feed(g, Xor(r, s), Xor(a, b))
    decreases |a|
  {
    if a != [] {
      StepLinear(g, r, s, a[0], b[0]);
      assert Xor(a, b)[1..] == Xor(a[1..], b[1..]);
      FeedLinear(g, Step(g, r, a[0]), Step(g, s, b[0]), a[1..], b[1..]);
    }
  }

  /** Undo one step: the bit that fell out is the last bit of the new register. */
  function Unstep(g: Bits, s: Bits, bit: bool): (r: Bits)
    requires Generator(g) && |s| == |g|
    ensures |r| == |g|
  {
    var out := s[|g| - 1];
    [out != bit] + Xor(s, Scale(out, g))[..|g| - 1]
  }

  lemma UnstepStep(g: Bits, r: Bits, bit: bool)
    requires Generator(g) && |r| == |g|
    ensures Unstep(g, Step(g, r, bit), bit) == r
  {
    var s := Step(g, r, bit);
    assert s[|g| - 1] == (r[0] != bit);
    assert forall i :: 0 <= i < |g| - 1 ==> Xor(s, Scale(s[|g| - 1], g))[i] == r[1..][i];
    assert r == [r[0]] + r[1..];
  }

  lemma StepInjective(g: Bits, r: Bits, s: Bits, bit: bool)
    requires Generator(g) && |r| == |s| == |g| && r != s
    ensures Step(g, r, bit) != Step(g, s, bit)
  {
    UnstepStep(g, r, bit);
    UnstepStep(g, s, bit);
  }

  /** Different registers stay different under the same data: nothing that follows can hide an error. */
  lemma {:induction false} FeedInjective(g: Bits, r: Bits, s: Bits, bits: Bits)
    requires Generator(g) && |r| == |s| == |g| && r != s
    ensures Feed(g, r, bits) != Feed(g, s, bits)
    decreases |bits|
  {
    if bits != [] {
      StepInjective(g, r, s, bits[0]);
      FeedInjective(g, Step(g, r, bits[0]), Step(g, s, bits[0]), bits[1..]);
    }
  }

  // ----- Error bursts -----

  /** n zero bits in a row. */
  function Run(g: Bits, r: Bits, n: nat): (s: Bits)
    requires Generator(g) && |r| == |g|
    ensures |s| == |g|
    decreases n
  {
    if n == 0 then r else Run(g, Step(g, r, false), n - 1)
  }

  lemma {:induction false} RunIsFeed(g: Bits, r: Bits, n: nat)
    requires Generator(g) && |r| == |g|
    ensures Run(g, r, n) == Feed(g, r, Zeros(n))
    decreases n
  {
    if n > 0 {
      assert Zeros(n)[1..] == Zeros(n - 1);
      RunIsFeed(g, Step(g, r, false), n - 1);
    }
  }

  lemma {:induction false} RunClear(g: Bits, n: nat)
    requires Generator(g)
    ensures Run(g, Zeros(|g|), n) == Zeros(|g|)
  {
    if n > 0 {
      assert Step(g, Zeros(|g|), false) == Zeros(|g|);
      RunClear(g, n - 1);
    }
  }

  lemma {:induction false} RunAdd(g: Bits, r: Bits, m: nat, n: nat)
    requires Generator(g) && |r| == |g|
    ensures Run(g, r, m + n) == Run(g, Run(g, r, m), n)
    decreases m
  {
    if m > 0 {
      RunAdd(g, Step(g, r, false), m - 1, n);
    }
  }

  lemma RunNext(g: Bits, r: Bits, n: nat)
    requires Generator(g) && |r| == |g|
    ensures Run(g, r, n + 1) == Step(g, Run(g, r, n), false)
  {
    RunAdd(g, r, n, 1);
    assert Run(g, Run(g, r, n), 1) == Run(g, Step(g, Run(g, r, n), false), 0);
  }

  lemma {:induction false} RunXor(g: Bits, r: Bits, s: Bits, n: nat)
    requires Generator(g) && |r| == |s| == |g|
    ensures Run(g, Xor(r, s), n) == Xor(Run(g, r, n), Run(g, s, n))
    decreases n
  {
    if n > 0 {
      StepLinear(g, r, s, false, false);
      RunXor(g, Step(g, r, false), Step(g, s, false), n - 1);
    }
  }

  lemma {:induction false} RunInjective(g: Bits, r: Bits, s: Bits, n: nat)
    requires Generator(g) && |r| == |s| == |g| && r != s
    ensures Run(g, r, n) != Run(g, s, n)
    decreases n
  {
    if n > 0 {
      StepInjective(g, r, s, false);
      RunInjective(g, Step(g, r, false), Step(g, s, false), n - 1);
    }
  }

  /** A register with a 1 at position i is still nonzero after i more steps, whatever is fed. */
  lemma {:induction false} FeedAlive(g: Bits, r: Bits, i: nat, bits: Bits)
    requires Generator(g) && |r| == |g|
    requires |bits| <= i < |g| && r[i]
    ensures Feed(g, r, bits) != Zeros(|g|)
    decreases |bits|
  {
    if bits == [] {
      assert !Zeros(|g|)[i];
    } else {
      var s := Step(g, r, bits[0]);
      if r[0] != bits[0] {
        FeedAlive(g, s, |g| - 1, bits[1..]);
      } else {
        assert s[i - 1];
        FeedAlive(g, s, i - 1, bits[1..]);
      }
    }
  }

  /** A nonzero string of at most w bits never has remainder 0. */
  lemma {:induction false} ShortNonzero(g: Bits, bits: Bits)
    requires Generator(g)
    requires |bits| <= |g| && bits != Zeros(|bits|)
    ensures Feed(g, Zeros(|g|), bits) != Zeros(|g|)
    decreases |bits|
  {
    assert bits != [];
    var s := Step(g, Zeros(|g|), bits[0]);
    if bits[0] {
      assert s[|g| - 1];
      FeedAlive(g, s, |g| - 1, bits[1..]);
    } else {
      assert s == Zeros(|g|);
      var i :| 0 <= i < |bits| && bits[i];
      assert bits[1..][i - 1];
      ShortNonzero(g, bits[1..]);
    }
  }

  lemma XorNonzero(a: Bits, b: Bits)
    requires |a| == |b|
    ensures a == b <==> Xor(a, b) == Zeros(|a|)
  {
    if Xor(a, b) == Zeros(|a|) {
      forall i | 0 <= i < |a| ensures a[i] == b[i] {
        assert !Xor(a, b)[i];
      }
    } else {
      var i :| 0 <= i < |a| && Xor(a, b)[i];
    }
  }

  lemma WindowDetected(g: Bits, r: Bits, u: Bits, v: Bits)
    requires Generator(g) && |r| == |g|
    requires |u| == |v| <= |g| && u != v
    ensures Feed(g, r, u) != Feed(g, r, v)
  {
    FeedLinear(g, r, r, u, v);
    XorNonzero(r, r);
    XorNonzero(u, v);
    XorNonzero(Feed(g, r, u), Feed(g, r, v));
    ShortNonzero(g, Xor(u, v));
  }

  lemma BurstWithin(g: Bits, r: Bits, before: Bits, u: Bits, v: Bits, after: Bits)
    requires Generator(g) && |r| == |g|
    requires |u| == |v| <= |g| && u != v
    ensures Feed(g, r, before + (u + after)) != Feed(g, r, before + (v + after))
  {
    var p := Feed(g, r, before);
    FeedConcat(g, r, before, u + after);
    FeedConcat(g, r, before, v + after);
    FeedConcat(g, p, u, after);
    FeedConcat(g, p, v, after);
    WindowDetected(g, p, u, v);
    FeedInjective(g, Feed(g, p, u), Feed(g, p, v), after);
  }

  /** Two messages agree outside the window [at, at + len). */
  predicate DifferOnlyIn(a: Bits, b: Bits, at: nat, len: nat) {
    |a| == |b| && forall i :: 0 <= i < |a| && !(at <= i < at + len) ==> a[i] == b[i]
  }

  lemma SplitAround(a: Bits, i: nat, j: nat)
    requires i <= j <= |a|
    ensures a == a[..i] + (a[i..j] + a[j..])
  {}

  /** Every error burst of at most w bits changes the remainder. */
  lemma BurstDetected(g: Bits, r: Bits, a: Bits, b: Bits, at: nat)
    requires Generator(g) && |r| == |g|
    requires DifferOnlyIn(a, b, at, |g|) && a != b
    ensures Feed(g, r, a) != Feed(g, r, b)
  {
    var k :| 0 <= k < |a| && a[k] != b[k];
    var j := if at + |g| <= |a| then at + |g| else |a|;
    assert a[..at] == b[..at] && a[j..] == b[j..];
    assert a[at..j][k - at] != b[at..j][k - at];
    SplitAround(a, at, j);
    SplitAround(b, at, j);
    BurstWithin(g, r, a[..at], a[at..j], b[at..j], a[j..]);
  }

  // ----- Several bits at a time -----

  lemma StepUpFront(g: Bits, r: Bits, bit: bool, c: Bits, pad: nat)
    requires Generator(g) && |r| == |g| == 1 + |c| + pad
    ensures Step(g, Xor(r, [bit] + c + Zeros(pad)), false) == Xor(Step(g, r, bit), c + Zeros(pad + 1))
  {}

  /** Data may be XORed into the top of the register all at once, and then shifted through. */
  lemma {:induction false} FeedUpFront(g: Bits, r: Bits, c: Bits, pad: nat)
    requires Generator(g) && |r| == |g| == |c| + pad
    ensures Feed(g, r, c) == Run(g, Xor(r, c + Zeros(pad)), |c|)
    decreases |c|
  {
    if c == [] {
      assert Xor(r, c + Zeros(pad)) == r;
    } else {
      StepUpFront(g, r, c[0], c[1..], pad);
      assert [c[0]] + c[1..] == c;
      FeedUpFront(g, Step(g, r, c[0]), c[1..], pad + 1);
    }
  }

  lemma {:induction false} RunLowPart(g: Bits, low: Bits, k: nat)
    requires Generator(g) && |low| + k == |g|
    ensures Run(g, Zeros(k) + low, k) == low + Zeros(k)
    decreases k
  {
    if k == 0 {
      assert Zeros(k) + low == low + Zeros(k);
    } else {
      assert Step(g, Zeros(k) + low, false) == Zeros(k - 1) + (low + [false]);
      RunLowPart(g, low + [false], k - 1);
      assert low + [false] + Zeros(k - 1) == low + Zeros(k);
    }
  }

  lemma SplitTop(high: Bits, low: Bits, c: Bits)
    requires |c| == |high|
    ensures Xor(high + low, c + Zeros(|low|)) == Xor(Xor(high, c) + Zeros(|low|), Zeros(|c|) + low)
  {}

  /** The identity behind table lookup: feeding k bits depends on the top k bits of the register only
      through their XOR with the data, and the rest of the register just moves up. */
  lemma FeedByTable(g: Bits, high: Bits, low: Bits, c: Bits)
    requires Generator(g) && |high| + |low| == |g| && |c| == |high|
    ensures Feed(g, high + low, c) == Xor(Run(g, Xor(high, c) + Zeros(|low|), |c|), low + Zeros(|c|))
  {
    FeedUpFront(g, high + low, c, |low|);
    SplitTop(high, low, c);
    RunXor(g, Xor(high, c) + Zeros(|low|), Zeros(|c|) + low, |c|);
    RunLowPart(g, low, |c|);
  }

  /** Feeding w bits clears the register exactly when they equal it. */
  lemma FeedOwnRegister(g: Bits, r: Bits, c: Bits)
    requires Generator(g) && |r| == |c| == |g|
    ensures Feed(g, r, c) == Zeros(|g|) <==> c == r
  {
    FeedUpFront(g, r, c, 0);
    assert c + Zeros(0) == c;
    RunClear(g, |g|);
    XorNonzero(r, c);
    if c != r {
      RunInjective(g, Xor(r, c), Zeros(|g|), |g|);
    }
  }

  /** A start value of the register is a change of the first w bits. */
  lemma StartUpFront(g: Bits, r: Bits, a: Bits, rest: Bits)
    requires Generator(g) && |r| == |a| == |g|
    ensures Feed(g, r, a + rest) == Feed(g, Zeros(|g|), Xor(a, r) + rest)
  {
    FeedConcat(g, r, a, rest);
    FeedConcat(g, Zeros(|g|), Xor(a, r), rest);
    FeedOwnRegister(g, r, r);
    FeedLinear(g, r, r, a, r);
    var f := Feed(g, r, a);
    assert Xor(f, Zeros(|g|)) == f;
    assert Xor(r, r) == Zeros(|g|);
  }

  // ----- Parity -----

  function Parity(a: Bits): bool {
    if a == [] then false else a[0] != Parity(a[1..])
  }

  lemma {:induction false} ParityXor(a: Bits, b: Bits)
    requires |a| == |b|
    ensures Parity(Xor(a, b)) == (Parity(a) != Parity(b))
  {
    if a != [] {
      assert Xor(a, b)[1..] == Xor(a[1..], b[1..]);
      ParityXor(a[1..], b[1..]);
    }
  }

  lemma {:induction false} ParityZeros(n: nat)
    ensures !Parity(Zeros(n))
  {
    if n > 0 {
      assert Zeros(n)[1..] == Zeros(n - 1);
      ParityZeros(n - 1);
    }
  }

  lemma {:induction false} ParityConcat(a: Bits, b: Bits)
    ensures Parity(a + b) == (Parity(a) != Parity(b))
  {
    if a == [] {
      assert a + b == b;
    } else {
      assert (a + b)[1..] == a[1..] + b;
      ParityConcat(a[1..], b);
    }
  }

  lemma ParityOne(bit: bool)
    ensures Parity([bit]) == bit
  {
    assert [bit][1..] == [];
  }

  /** A generator divisible by x + 1 makes the register count the 1 bits of the message modulo 2. */
  lemma {:induction false} FeedParity(g: Bits, r: Bits, bits: Bits)
    requires Generator(g) && |r| == |g| && Parity(g)
    ensures Parity(Feed(g, r, bits)) == (Parity(r) != Parity(bits))
    decreases |bits|
  {
    if bits != [] {
      ParityConcat(r[1..], [false]);
      ParityOne(false);
      ParityZeros(|g|);
      ParityXor(r[1..] + [false], Scale(r[0] != bits[0], g));
      assert Step(g, r, bits[0]) == Xor(r[1..] + [false], Scale(r[0] != bits[0], g));
      FeedParity(g, Step(g, r, bits[0]), bits[1..]);
    }
  }

  // ----- The register holds the remainder of polynomial division -----

  /** Schoolbook product of q with the full generator x^w + g: one shifted copy for every 1 of q. */
  function Times(q: Bits, g: Bits): (p: Bits)
    ensures |p| == |q| + |g|
    decreases |q|
  {
    if q == [] then Zeros(|g|)
    else
      var n := |q| - 1;
      Xor(Times(q[..n], g) + [false], Zeros(n) + Scale(q[n], [true] + g))
  }

  /** The quotient digits are the bits that fall out of the register. */
  function Quotient(g: Bits, r: Bits, bits: Bits): (q: Bits)
    requires Generator(g) && |r| == |g|
    ensures |q| == |bits|
    decreases |bits|
  {
    if bits == [] then []
    else
      var n := |bits| - 1;
      Quotient(g, r, bits[..n]) + [Feed(g, r, bits[..n])[0] != bits[n]]
  }

  lemma FeedOne(g: Bits, r: Bits, bit: bool)
    requires Generator(g) && |r| == |g|
    ensures Feed(g, r, [bit]) == Step(g, r, bit)
  {
    assert [bit][1..] == [];
  }

  lemma FeedSnoc(g: Bits, r: Bits, a: Bits, bit: bool)
    requires Generator(g) && |r| == |g|
    ensures Feed(g, r, a + [bit]) == Step(g, Feed(g, r, a), bit)
  {
    FeedConcat(g, r, a, [bit]);
    FeedOne(g, Feed(g, r, a), bit);
  }

  lemma XorConcat(a: Bits, b: Bits, c: Bits, d: Bits)
    requires |a| == |b| && |c| == |d|
    ensures Xor(a + c, b + d) == Xor(a, b) + Xor(c, d)
  {}

  lemma ScaleCons(on: bool, g: Bits)
    ensures Scale(on, [true] + g) == [on] + Scale(on, g)
  {}

  lemma XorHead(done: Bits, p0: bool, bit: bool)
    ensures Xor(done + [p0], Zeros(|done|) + [p0 != bit]) == done + [bit]
  {}

  /** Subtracting a shifted generator is what one register step does to the digits not yet divided. */
  lemma ColumnStep(g: Bits, done: Bits, p: Bits, bit: bool)
    requires Generator(g) && |p| == |g|
    ensures Xor(done + p + [false], Zeros(|done|) + Scale(p[0] != bit, [true] + g))
            == done + [bit] + Step(g, p, bit)
  {
    hide Xor, Scale, Zeros;
    var n, on := |done|, p[0] != bit;
    ScaleCons(on, g);
    assert done + p + [false] == (done + [p[0]]) + (p[1..] + [false]);
    assert Zeros(n) + ([on] + Scale(on, g)) == (Zeros(n) + [on]) + Scale(on, g);
    XorConcat(done + [p[0]], Zeros(n) + [on], p[1..] + [false], Scale(on, g));
    XorHead(done, p[0], bit);
  }

  lemma TimesSnoc(q: Bits, digit: bool, g: Bits)
    ensures Times(q + [digit], g) == Xor(Times(q, g) + [false], Zeros(|q|) + Scale(digit, [true] + g))
  {
    assert (q + [digit])[..|q|] == q;
  }

  lemma {:induction false} QuotientDivides(g: Bits, bits: Bits)
    requires Generator(g)
    ensures Times(Quotient(g, Zeros(|g|), bits), g) == bits + Feed(g, Zeros(|g|), bits)
    decreases |bits|
  {
    var z := Zeros(|g|);
    if bits != [] {
      var n := |bits| - 1;
      var done := bits[..n];
      var p := Feed(g, z, done);
      assert bits == done + [bits[n]];
      QuotientDivides(g, done);
      FeedSnoc(g, z, done, bits[n]);
      TimesSnoc(Quotient(g, z, done), p[0] != bits[n], g);
      ColumnStep(g, done, p, bits[n]);
    }
  }

  /** The first |q| digits of a multiple of the generator determine the multiplier. */
  lemma {:induction false} TimesInjective(p: Bits, q: Bits, g: Bits)
    requires |g| > 0 && |p| == |q| && forall i :: 0 <= i < |p| ==> Times(p, g)[i] == Times(q, g)[i]
    ensures p == q
    decreases |p|
  {
    if p != [] {
      var n := |p| - 1;
      var p0, q0 := p[..n], q[..n];
      assert p == p0 + [p[n]] && q == q0 + [q[n]];
      TimesSnoc(p0, p[n], g);
      TimesSnoc(q0, q[n], g);
      forall i | 0 <= i < n ensures Times(p0, g)[i] == Times(q0, g)[i] {
        assert Times(p, g)[i] == Times(q, g)[i];
      }
      TimesInjective(p0, q0, g);
      assert Times(p, g)[n] == Times(q, g)[n];
    }
  }

  ghost predicate MultipleOf(p: Bits, g: Bits) {
    exists q: Bits :: |q| + |g| == |p| && Times(q, g) == p
  }

  /** A message followed by w check bits is a multiple of the generator for exactly one choice of check bits:
      the register the message leaves behind. */
  lemma RemainderUnique(g: Bits, bits: Bits, check: Bits)
    requires Generator(g) && |check| == |g|
    ensures MultipleOf(bits + check, g) <==> check == Feed(g, Zeros(|g|), bits)
  {
    var r := Feed(g, Zeros(|g|), bits);
    var q0 := Quotient(g, Zeros(|g|), bits);
    QuotientDivides(g, bits);
    if MultipleOf(bits + check, g) {
      var q: Bits :| |q| + |g| == |bits + check| && Times(q, g) == bits + check;
      assert forall i :: 0 <= i < |bits| ==> (bits + check)[i] == (bits + r)[i];
      TimesInjective(q, q0, g);
      assert check == (bits + check)[|bits|..] == (bits + r)[|bits|..] == r;
    }
  }

  /** A string is a multiple of the generator exactly if it leaves the register at zero. */
  lemma MultipleLeavesZero(g: Bits, s: Bits)
    requires Generator(g) && |s| >= |g|
    ensures MultipleOf(s, g) <==> Feed(g, Zeros(|g|), s) == Zeros(|g|)
  {
    hide MultipleOf;
    var n := |s| - |g|;
    var bits, check := s[..n], s[n..];
    assert s == bits + check;
    RemainderUnique(g, bits, check);
    FeedConcat(g, Zeros(|g|), bits, check);
    FeedOwnRegister(g, Feed(g, Zeros(|g|), bits), check);
  }
}
