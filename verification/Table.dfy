/** Linear interpolation in a table (bertos/algo/table.c). */
module Table {
  import opened Arithmetic

  datatype Entry = Entry(x: int, y: int)

  /** The x coordinates increase along the table; equal neighbours are allowed. */
  predicate Sorted(table: seq<Entry>) {
    forall i, j :: 0 <= i <= j < |table| ==> table[i].x <= table[j].x
  }

  // ----- The search -----

  /** How many entries lie at or before x. */
  function CountUpTo(table: seq<Entry>, x: int): (n: nat)
    ensures n <= |table|
  {
    if table == [] then 0
    else
      var last := |table| - 1;
      CountUpTo(table[..last], x) + if table[last].x <= x then 1 else 0
  }

  /** A place with every entry before it at or before x, and every entry from it on behind x. */
  predicate Splits(table: seq<Entry>, x: int, n: nat) {
    && n <= |table|
    && (forall k :: 0 <= k < n ==> table[k].x <= x)
    && (forall k :: n <= k < |table| ==> x < table[k].x)
  }

  lemma {:induction false} SplitIsCount(table: seq<Entry>, x: int, n: nat)
    requires Splits(table, x, n)
    ensures n == CountUpTo(table, x)
  {
    if table != [] {
      var last := |table| - 1;
      SplitIsCount(table[..last], x, if n == |table| then last else n);
    }
  }

  /** `upper_bound`. */
  method UpperBound(table: seq<Entry>, x: int) returns (n: nat)
    requires Sorted(table)
    ensures n == CountUpTo(table, x)
    ensures Splits(table, x, n)
  {
    var start: nat, size: nat := 0, |table|;
    while size != 0
      invariant start + size <= |table|
      invariant forall k :: 0 <= k < start ==> table[k].x <= x
      invariant forall k :: start + size <= k < |table| ==> x < table[k].x
      decreases size
    {
      var pos := size / 2;
      if x < table[start + pos].x {
        size := pos;
      } else {
        start := start + (pos + 1);
        size := size - (pos + 1);
      }
    }
    n := start;
    SplitIsCount(table, x, n);
  }

  /** In a sorted table the count is a place that splits it. */
  lemma {:induction false} CountSplits(table: seq<Entry>, x: int)
    requires Sorted(table)
    ensures Splits(table, x, CountUpTo(table, x))
  {
    if table != [] {
      var last := |table| - 1;
      var init := table[..last];
      CountSplits(init, x);
      if CountUpTo(init, x) < last {
        assert init[CountUpTo(init, x)].x <= table[last].x;
      }
    }
  }

  // ----- The interpolation -----

  /** C's division, towards zero. */
  function Quotient(a: int, b: int): int
    requires b > 0
  {
    if a >= 0 then a / b else -(-a / b)
  }

  /** `table_linearInterpolation`, for a table that is not empty. */
  function Interpolation(table: seq<Entry>, x: int): int
    requires |table| > 0 && Sorted(table)
  {
    CountSplits(table, x);
    var i := CountUpTo(table, x);
    if i == 0 then table[0].y
    else if i == |table| then table[|table| - 1].y
    else Segment(table[i - 1], table[i], x)
  }

  function Segment(a: Entry, b: Entry, x: int): int
    requires a.x < b.x
  {
    Quotient((x - a.x) * (b.y - a.y), b.x - a.x) + a.y
  }

  method LinearInterpolation(table: seq<Entry>, x: int) returns (y: int)
    requires |table| > 0 && Sorted(table)
    ensures y == Interpolation(table, x)
  {
    var i := UpperBound(table, x);
    if i == 0 {
      return table[0].y;
    }
    if i == |table| {
      return table[|table| - 1].y;
    }
    var dy := table[i].y - table[i - 1].y;
    var dx := table[i].x - table[i - 1].x;
    y := Quotient((x - table[i - 1].x) * dy, dx) + table[i - 1].y;
  }

  // ----- Inside one segment -----

  lemma QuotientMonotone(a: int, b: int, d: int)
    requires d > 0 && a <= b
    ensures Quotient(a, d) <= Quotient(b, d)
  {
    if a >= 0 {
      FloorMonotone(a, b, d);
    } else if b < 0 {
      FloorMonotone(-b, -a, d);
    } else {
      FloorMonotone(0, b, d);
      FloorMonotone(0, -a, d);
    }
  }

  lemma QuotientExact(k: int, d: int)
    requires d > 0
    ensures Quotient(k * d, d) == k
  {
    FloorExact(if k >= 0 then k else -k, d);
    assert (-k) * d == -(k * d);
    TimesMonotone(if k >= 0 then 0 else k, if k >= 0 then k else 0, d);
  }

  lemma FloorExact(k: nat, d: nat)
    requires d > 0
    ensures k * d >= 0 && k * d / d == k
  {
    TimesMonotone(0, k, d);
    FloorAtLeast(k * d, d, k);
    FloorAtMost(k * d, d, k);
  }

  lemma QuotientNegates(a: int, d: int)
    requires d > 0
    ensures Quotient(-a, d) == -Quotient(a, d)
  {
  }

  lemma QuotientError(a: int, d: int)
    requires d > 0
    ensures var q := Quotient(a, d); (a >= 0 ==> 0 <= a - q * d < d) && (a <= 0 ==> 0 <= q * d - a < d)
  {
    var b: nat := if a >= 0 then a else -a;
    FloorError(b, d);
    NegatedProduct(d, b / d);
    Commute(d, b / d);
    Commute(d, -(b / d));
  }

  lemma FloorError(n: nat, d: nat)
    requires d > 0
    ensures 0 <= n - n / d * d < d
  {
  }

  /** Between its two entries, a segment stays between their values. */
  lemma SegmentBetween(a: Entry, b: Entry, x: int)
    requires a.x <= x <= b.x && a.x < b.x
    ensures a.y <= b.y ==> a.y <= Segment(a, b, x) <= b.y
    ensures a.y >= b.y ==> a.y >= Segment(a, b, x) >= b.y
  {
    hide Quotient;
    SegmentMonotone(a, b, a.x, x);
    SegmentMonotone(a, b, x, b.x);
    SegmentEnds(a, b);
  }

  lemma SegmentEnds(a: Entry, b: Entry)
    requires a.x < b.x
    ensures Segment(a, b, a.x) == a.y && Segment(a, b, b.x) == b.y
  {
    hide Quotient;
    QuotientExact(0, b.x - a.x);
    QuotientExact(b.y - a.y, b.x - a.x);
    Commute(b.x - a.x, b.y - a.y);
  }

  lemma Commute(a: int, b: int)
    ensures a * b == b * a
  {
  }

  lemma SegmentMonotone(a: Entry, b: Entry, x: int, x': int)
    requires a.x < b.x && x <= x'
    ensures a.y <= b.y ==> Segment(a, b, x) <= Segment(a, b, x')
    ensures a.y >= b.y ==> Segment(a, b, x) >= Segment(a, b, x')
  {
    hide Quotient;
    var d, dx := b.y - a.y, b.x - a.x;
    if d >= 0 {
      TimesMonotone(x - a.x, x' - a.x, d);
      QuotientMonotone((x - a.x) * d, (x' - a.x) * d, dx);
    }
    if d <= 0 {
      TimesMonotone(x - a.x, x' - a.x, -d);
      assert (x - a.x) * -d == -((x - a.x) * d) && (x' - a.x) * -d == -((x' - a.x) * d);
      QuotientMonotone((x' - a.x) * d, (x - a.x) * d, dx);
    }
  }

  // ----- The whole table -----

  /** Where the interpolation is taken: x lies in the segment, and its divisor is positive. */
  lemma DivisorIsPositive(table: seq<Entry>, x: int)
    requires Sorted(table) && 0 < CountUpTo(table, x) < |table|
    ensures var i := CountUpTo(table, x); table[i - 1].x <= x < table[i].x
  {
    CountSplits(table, x);
  }

  /** Outside the table the value is that of the nearest end. */
  lemma Outside(table: seq<Entry>, x: int)
    requires |table| > 0 && Sorted(table)
    ensures x < table[0].x ==> Interpolation(table, x) == table[0].y
    ensures x >= table[|table| - 1].x ==> Interpolation(table, x) == table[|table| - 1].y
  {
    CountSplits(table, x);
  }

  /** At an entry the value is that entry's; among entries with the same x, the last one's. */
  lemma AtEntry(table: seq<Entry>, k: nat)
    requires Sorted(table) && k < |table|
    requires k + 1 < |table| ==> table[k].x < table[k + 1].x
    ensures Interpolation(table, table[k].x) == table[k].y
  {
    var x := table[k].x;
    SplitIsCount(table, x, k + 1);
    if k + 1 < |table| {
      SegmentEnds(table[k], table[k + 1]);
    }
  }

  /** Inside the table the value lies between the two neighbouring values, and within less than one of the
      exact quotient, on the side of the entry before x. */
  lemma Inside(table: seq<Entry>, x: int)
    requires Sorted(table) && 0 < CountUpTo(table, x) < |table|
    ensures var i := CountUpTo(table, x);
            var a, b, y := table[i - 1], table[i], Interpolation(table, x);
            && (a.y <= b.y ==> a.y <= y <= b.y)
            && (a.y >= b.y ==> a.y >= y >= b.y)
            && (a.y <= b.y ==> 0 <= (x - a.x) * (b.y - a.y) - (y - a.y) * (b.x - a.x) < b.x - a.x)
            && (a.y >= b.y ==> 0 <= (y - a.y) * (b.x - a.x) - (x - a.x) * (b.y - a.y) < b.x - a.x)
  {
    hide Segment;
    DivisorIsPositive(table, x);
    var i := CountUpTo(table, x);
    SegmentBetween(table[i - 1], table[i], x);
    SegmentError(table[i - 1], table[i], x);
  }

  lemma SegmentError(a: Entry, b: Entry, x: int)
    requires a.x <= x < b.x
    ensures var y := Segment(a, b, x);
            && (a.y <= b.y ==> 0 <= (x - a.x) * (b.y - a.y) - (y - a.y) * (b.x - a.x) < b.x - a.x)
            && (a.y >= b.y ==> 0 <= (y - a.y) * (b.x - a.x) - (x - a.x) * (b.y - a.y) < b.x - a.x)
  {
    hide Quotient;
    QuotientError((x - a.x) * (b.y - a.y), b.x - a.x);
    SignOfProduct(x - a.x, b.y - a.y);
  }

  lemma SignOfProduct(a: nat, b: int)
    ensures b > 0 ==> a * b >= 0
    ensures b == 0 ==> a * b == 0
    ensures b < 0 ==> a * b <= 0
  {
  }

  predicate Ascending(table: seq<Entry>) {
    forall i, j :: 0 <= i <= j < |table| ==> table[i].y <= table[j].y
  }

  predicate Descending(table: seq<Entry>) {
    forall i, j :: 0 <= i <= j < |table| ==> table[i].y >= table[j].y
  }

  lemma CountMonotone(table: seq<Entry>, x: int, x': int)
    requires Sorted(table) && x <= x'
    ensures CountUpTo(table, x) <= CountUpTo(table, x')
  {
    CountSplits(table, x);
    CountSplits(table, x');
    if CountUpTo(table, x') < |table| {
      assert x < table[CountUpTo(table, x')].x;
    }
  }

  /** If the values ascend along the table, so does the interpolation over all of x. */
  lemma Monotone(table: seq<Entry>, x: int, x': int)
    requires |table| > 0 && Sorted(table) && Ascending(table) && x <= x'
    ensures Interpolation(table, x) <= Interpolation(table, x')
  {
    hide Segment, CountUpTo;
    CountMonotone(table, x, x');
    var i, j := CountUpTo(table, x), CountUpTo(table, x');
    if i == j {
      if 0 < i < |table| {
        DivisorIsPositive(table, x);
        SegmentMonotone(table[i - 1], table[i], x, x');
      }
    } else {
      assert Interpolation(table, x) <= table[i].y by {
        if i > 0 {
          DivisorIsPositive(table, x);
          SegmentBetween(table[i - 1], table[i], x);
        }
      }
      assert table[j - 1].y <= Interpolation(table, x') by {
        if j < |table| {
          DivisorIsPositive(table, x');
          SegmentBetween(table[j - 1], table[j], x');
        }
      }
    }
  }

  function Negated(table: seq<Entry>): (t: seq<Entry>)
    ensures |t| == |table| && forall k :: 0 <= k < |t| ==> t[k] == Entry(table[k].x, -table[k].y)
  {
    seq(|table|, k requires 0 <= k < |table| => Entry(table[k].x, -table[k].y))
  }

  /** Rounding is the same upwards and downwards: negating every value negates the interpolation. */
  lemma NegatedInterpolation(table: seq<Entry>, x: int)
    requires |table| > 0 && Sorted(table)
    ensures Sorted(Negated(table))
    ensures Interpolation(Negated(table), x) == -Interpolation(table, x)
  {
    hide CountUpTo, Segment;
    var t := Negated(table);
    CountSplits(table, x);
    var i := CountUpTo(table, x);
    SplitIsCount(t, x, i);
    if 0 < i < |table| {
      NegatedSegment(table[i - 1], table[i], x);
    }
  }

  lemma NegatedSegment(a: Entry, b: Entry, x: int)
    requires a.x < b.x
    ensures Segment(Entry(a.x, -a.y), Entry(b.x, -b.y), x) == -Segment(a, b, x)
  {
    hide Quotient;
    var p, dy := x - a.x, b.y - a.y;
    NegatedProduct(p, dy);
    QuotientNegates(p * dy, b.x - a.x);
    assert -b.y - -a.y == -dy;
  }

  lemma NegatedProduct(a: int, b: int)
    ensures a * -b == -(a * b)
  {
  }

  lemma MonotoneDown(table: seq<Entry>, x: int, x': int)
    requires |table| > 0 && Sorted(table) && Descending(table) && x <= x'
    ensures Interpolation(table, x) >= Interpolation(table, x')
  {
    hide Interpolation;
    NegatedInterpolation(table, x);
    NegatedInterpolation(table, x');
    Monotone(Negated(table), x, x');
  }

  // ----- Machine integers -----

  /** With an `int` that holds the differences of neighbouring entries, up to max in size, every value on the way
      fits, if a `long` holds (max - 1) * max. */
  lemma NoOverflow(table: seq<Entry>, x: int, max: nat)
    requires Sorted(table) && 0 < CountUpTo(table, x) < |table|
    requires var i := CountUpTo(table, x);
             table[i].x - table[i - 1].x <= max && 0 - max <= table[i].y - table[i - 1].y <= max
    ensures var i := CountUpTo(table, x);
            var p, dy, dx := x - table[i - 1].x, table[i].y - table[i - 1].y, table[i].x - table[i - 1].x;
            && 0 <= p < dx <= max
            && 0 - (max - 1) * max <= p * dy <= (max - 1) * max
            && 0 - max <= Quotient(p * dy, dx) <= max
  {
    hide Quotient;
    DivisorIsPositive(table, x);
    var i := CountUpTo(table, x);
    var p, dy, dx := x - table[i - 1].x, table[i].y - table[i - 1].y, table[i].x - table[i - 1].x;
    SegmentBetween(table[i - 1], table[i], x);
    ProductFits(p, dy, max);
  }

  lemma ProductFits(p: nat, dy: int, max: nat)
    requires p < max && 0 - max <= dy <= max
    ensures 0 - (max - 1) * max <= p * dy <= (max - 1) * max
  {
    TimesMonotone(dy, max, p);
    TimesMonotone(0 - max, dy, p);
    TimesMonotone(p, max - 1, max);
    Commute(max, p);
    Commute(0 - max, p);
    NegatedProduct(p, max);
  }

  /** A smaller `long` does not do: some table with such differences reaches that product. */
  lemma OverflowReached(max: nat)
    requires max > 0
    ensures var table, x := [Entry(0, 0), Entry(max, max)], max - 1;
            && Sorted(table) && CountUpTo(table, x) == 1
            && (x - table[0].x) * (table[1].y - table[0].y) == (max - 1) * max
  {
    SplitIsCount([Entry(0, 0), Entry(max, max)], max - 1, 1);
  }
}
