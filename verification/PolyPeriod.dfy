/** How far apart two single-bit errors must be before a CRC can miss them: the period of the generator. */
module PolyPeriod {
  import opened PolyDivision

  /** x^0 as a register. */
  function One(w: nat): (e: Bits)
    requires w > 0
    ensures |e| == w
  {
    Zeros(w - 1) + [true]
  }

  /** x^n modulo the generator: the register after n zero bits, starting from x^0. */
  function XPower(g: Bits, n: nat): (p: Bits)
    requires Generator(g)
    ensures |p| == |g|
  {
    Run(g, One(|g|), n)
  }

  // ----- Multiplication modulo the generator -----

  /** a * b modulo the generator, by Horner's rule on the coefficients of a. */
  function MulMod(g: Bits, a: Bits, b: Bits): (p: Bits)
    requires Generator(g) && |b| == |g|
    ensures |p| == |g|
    decreases |a|
  {
    if a == [] then Zeros(|g|)
    else
      var n := |a| - 1;
      Xor(Step(g, MulMod(g, a[..n], b), false), Scale(a[n], b))
  }

  lemma StepScale(g: Bits, on: bool, b: Bits)
    requires Generator(g) && |b| == |g|
    ensures Step(g, Scale(on, b), false) == Scale(on, Step(g, b, false))
  {}

  lemma {:induction false} MulStep(g: Bits, a: Bits, b: Bits)
    requires Generator(g) && |b| == |g|
    ensures Step(g, MulMod(g, a, b), false) == MulMod(g, a, Step(g, b, false))
    decreases |a|
  {
    if a == [] {
      assert Step(g, Zeros(|g|), false) == Zeros(|g|);
    } else {
      var n := |a| - 1;
      MulStep(g, a[..n], b);
      StepLinear(g, Step(g, MulMod(g, a[..n], b), false), Scale(a[n], b), false, false);
      StepScale(g, a[n], b);
    }
  }

  lemma {:induction false} MulRun(g: Bits, a: Bits, b: Bits, n: nat)
    requires Generator(g) && |b| == |g|
    ensures Run(g, MulMod(g, a, b), n) == MulMod(g, a, Run(g, b, n))
    decreases n
  {
    if n > 0 {
      MulStep(g, a, b);
      MulRun(g, a, Step(g, b, false), n - 1);
    }
  }

  lemma HornerStep(g: Bits, a: Bits, digit: bool)
    requires Generator(g) && |a| < |g|
    ensures Xor(Step(g, Zeros(|g| - |a|) + a, false), Scale(digit, One(|g|)))
            == Zeros(|g| - |a| - 1) + (a + [digit])
  {
    assert Step(g, Zeros(|g| - |a|) + a, false) == Zeros(|g| - |a| - 1) + (a + [false]);
  }

  lemma MulSnoc(g: Bits, a: Bits, digit: bool, b: Bits)
    requires Generator(g) && |b| == |g|
    ensures MulMod(g, a + [digit], b) == Xor(Step(g, MulMod(g, a, b), false), Scale(digit, b))
  {
    assert (a + [digit])[..|a|] == a;
  }

  lemma {:induction false} MulOne(g: Bits, a: Bits)
    requires Generator(g) && |a| <= |g|
    ensures MulMod(g, a, One(|g|)) == Zeros(|g| - |a|) + a
    decreases |a|
  {
    if a == [] {
      assert Zeros(|g|) + a == Zeros(|g|);
    } else {
      var a0, digit := a[..|a| - 1], a[|a| - 1];
      assert a == a0 + [digit];
      MulOne(g, a0);
      MulSnoc(g, a0, digit, One(|g|));
      HornerStep(g, a0, digit);
    }
  }

  /** x^(m+n) is the product of x^m and x^n. */
  lemma XPowerAdd(g: Bits, m: nat, n: nat)
    requires Generator(g)
    ensures XPower(g, m + n) == MulMod(g, XPower(g, m), XPower(g, n))
  {
    var a := XPower(g, m);
    RunAdd(g, One(|g|), m, n);
    MulOne(g, a);
    assert Zeros(0) + a == a;
    MulRun(g, a, One(|g|), n);
  }

  // ----- Periods -----

  /** x^d = 1 modulo the generator. */
  predicate Period(g: Bits, d: nat)
    requires Generator(g)
  {
    XPower(g, d) == One(|g|)
  }

  lemma PeriodSum(g: Bits, a: nat, b: nat)
    requires Generator(g) && Period(g, a)
    ensures Period(g, a + b) <==> Period(g, b)
  {
    RunAdd(g, One(|g|), a, b);
  }

  lemma {:induction false} PeriodMultiple(g: Bits, a: nat, k: nat)
    requires Generator(g) && Period(g, a)
    ensures Period(g, k * a)
    decreases k
  {
    if k == 0 {
      assert XPower(g, 0) == One(|g|);
    } else {
      PeriodMultiple(g, a, k - 1);
      PeriodSum(g, a, (k - 1) * a);
      assert k * a == a + (k - 1) * a;
    }
  }

  lemma PeriodMod(g: Bits, a: nat, b: nat)
    requires Generator(g) && a > 0 && Period(g, a)
    ensures Period(g, b) <==> Period(g, b % a)
  {
    PeriodMultiple(g, a, b / a);
    PeriodSum(g, b / a * a, b % a);
    assert b / a * a + b % a == b;
  }

  ghost predicate Divides(d: nat, n: nat) {
    exists k: nat :: d * k == n
  }

  lemma ProductOfSum(d: nat, i: nat, j: nat, q: nat)
    ensures d * (j * q + i) == (d * j) * q + d * i
  {}

  lemma DividesRemainder(d: nat, a: nat, b: nat)
    requires a > 0 && Divides(d, a) && Divides(d, b % a)
    ensures Divides(d, b)
  {
    var i: nat :| d * i == b % a;
    var j: nat :| d * j == a;
    var q := b / a;
    ProductOfSum(d, i, j, q);
    var k: nat := j * q + i;
    assert d * k == b;
  }

  /** Two periods have a common divisor that is a period, by Euclid's algorithm. */
  lemma {:induction false} PeriodGcd(g: Bits, a: nat, b: nat) returns (d: nat)
    requires Generator(g) && a > 0 && Period(g, a) && Period(g, b)
    ensures 0 < d <= a && Period(g, d) && Divides(d, a) && Divides(d, b)
    decreases a
  {
    PeriodMod(g, a, b);
    if b % a == 0 {
      d := a;
      assert a * 1 == a && a * (b / a) == b;
    } else {
      d := PeriodGcd(g, b % a, a);
      DividesRemainder(d, a, b);
    }
  }

  /** Only multiples of n are periods if n is one and none of the given co-divisors is. */
  ghost predicate Primitive(g: Bits, n: nat)
    requires Generator(g)
  {
    n > 0 && Period(g, n) && forall d: nat {:trigger Period(g, d)} :: 0 < d < n && Divides(d, n) ==> !Period(g, d)
  }

  lemma PrimitivePeriod(g: Bits, n: nat, d: nat)
    requires Generator(g) && Primitive(g, n)
    ensures Period(g, d) <==> d % n == 0
  {
    PeriodMod(g, n, d);
    var m := d % n;
    assert XPower(g, 0) == One(|g|);
    if m != 0 && Period(g, m) {
      var c := PeriodGcd(g, m, n);
    }
  }

  lemma Factor(n: nat, s: nat, d: nat, k: nat)
    requires d * k == n && 0 < n < s * s
    ensures d > 0 && k > 0 && n % d == 0 && n % k == 0 && (d < s || k < s)
  {
    FactorDivides(n, d, k);
    FactorDivides(n, k, d);
    if d >= s && k >= s {
      assert d * k == (d - s) * k + s * k;
      assert s * k == s * (k - s) + s * s;
      MulNonNegative(d - s, k);
      MulNonNegative(s, k - s);
    }
  }

  lemma FactorDivides(n: nat, d: nat, k: nat)
    requires d * k == n && n > 0
    ensures d > 0 && n % d == 0
  {
    var q, r := n / d, n % d;
    assert d * (k - q) == r;
    MulAtLeast(d, k - q);
    MulAtLeast(d, q - k);
    assert d * (q - k) == -r;
  }

  lemma MulAtLeast(d: nat, t: int)
    ensures t >= 1 ==> d * t >= d
  {
    assert d * t == d + d * (t - 1);
    if t >= 1 {
      MulNonNegative(d, t - 1);
    }
  }

  lemma MulNonNegative(d: nat, t: nat)
    ensures d * t >= 0
  {}

  // ----- Double-bit errors -----

  lemma ShiftOne(g: Bits, m: nat, n: nat)
    requires Generator(g) && m + n + 1 == |g|
    ensures m > 0 ==> Step(g, Zeros(m) + [true] + Zeros(n), false) == Zeros(m - 1) + [true] + Zeros(n + 1)
    ensures m == 0 ==> Step(g, Zeros(m) + [true] + Zeros(n), false) == g
  {}

  lemma {:induction false} XPowerTop(g: Bits, n: nat)
    requires Generator(g) && n < |g|
    ensures XPower(g, n) == Zeros(|g| - 1 - n) + [true] + Zeros(n)
  {
    if n == 0 {
      assert One(|g|) + Zeros(0) == One(|g|);
    } else {
      XPowerTop(g, n - 1);
      RunNext(g, One(|g|), n - 1);
      ShiftOne(g, |g| - n, n - 1);
    }
  }

  lemma XPowerWidth(g: Bits)
    requires Generator(g)
    ensures XPower(g, |g|) == g
  {
    XPowerTop(g, |g| - 1);
    RunNext(g, One(|g|), |g| - 1);
    ShiftOne(g, 0, |g| - 1);
  }

  /** d zeros take the generator back to itself exactly when they take x^0 back to itself. */
  lemma GeneratorReturns(g: Bits, d: nat)
    requires Generator(g)
    ensures Run(g, g, d) == g <==> Period(g, d)
  {
    XPowerWidth(g);
    RunAdd(g, One(|g|), |g|, d);
    RunAdd(g, One(|g|), d, |g|);
    if !Period(g, d) {
      RunInjective(g, XPower(g, d), One(|g|), |g|);
    }
  }

  /** Two messages differ in exactly the bits at positions p and q. */
  predicate DifferAtTwo(a: Bits, b: Bits, p: nat, q: nat) {
    && |a| == |b|
    && p < q < |a|
    && forall i :: 0 <= i < |a| ==> (a[i] != b[i] <==> i == p || i == q)
  }

  lemma FirstOne(g: Bits, tail: Bits)
    requires Generator(g)
    ensures Feed(g, Zeros(|g|), [true] + tail) == Feed(g, g, tail)
  {
    assert Step(g, Zeros(|g|), true) == g;
    assert ([true] + tail)[1..] == tail;
  }

  lemma LastOne(g: Bits, n: nat)
    requires Generator(g)
    ensures Feed(g, g, Zeros(n) + [true]) == Xor(Run(g, g, n + 1), g)
  {
    FeedSnoc(g, g, Zeros(n), true);
    RunIsFeed(g, g, n);
    RunNext(g, g, n);
    var r := Run(g, g, n);
    assert Step(g, r, true) == Xor(Step(g, r, false), g);
  }

  lemma TwoOnesMissed(g: Bits, p: nat, d: nat, rest: nat)
    requires Generator(g) && d > 0
    ensures var e := [true] + (Zeros(d - 1) + [true]);
            Feed(g, Zeros(|g|), Zeros(p) + (e + Zeros(rest))) == Zeros(|g|) <==> Period(g, d)
  {
    var z, e := Zeros(|g|), [true] + (Zeros(d - 1) + [true]);
    FeedConcat(g, z, Zeros(p), e + Zeros(rest));
    RunIsFeed(g, z, p);
    RunClear(g, p);
    FeedConcat(g, z, e, Zeros(rest));
    RunIsFeed(g, Feed(g, z, e), rest);
    RunClear(g, rest);
    FirstOne(g, Zeros(d - 1) + [true]);
    LastOne(g, d - 1);
    GeneratorReturns(g, d);
    XorNonzero(Run(g, g, d), g);
    if Feed(g, z, e) != z {
      RunInjective(g, Feed(g, z, e), z, rest);
    }
  }

  lemma TwoBitDifference(a: Bits, b: Bits, p: nat, q: nat)
    requires DifferAtTwo(a, b, p, q)
    ensures Xor(a, b) == Zeros(p) + (([true] + (Zeros(q - p - 1) + [true])) + Zeros(|a| - q - 1))
  {}

  /** A double-bit error is missed exactly when the distance of the two bits is a period of the generator. */
  lemma DoubleErrorMissed(g: Bits, r: Bits, a: Bits, b: Bits, p: nat, q: nat)
    requires Generator(g) && |r| == |g| && DifferAtTwo(a, b, p, q)
    ensures Feed(g, r, a) == Feed(g, r, b) <==> Period(g, q - p)
  {
    FeedLinear(g, r, r, a, b);
    XorNonzero(r, r);
    XorNonzero(Feed(g, r, a), Feed(g, r, b));
    TwoBitDifference(a, b, p, q);
    TwoOnesMissed(g, p, q - p, |a| - q - 1);
  }
}
