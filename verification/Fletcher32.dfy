/** Fletcher-32 with deferred reduction and an odd byte carried between calls (bertos/algo/fletcher32.c). */
module Fletcher32 {

  import opened CTypes

  /** A 32-bit sum: every operation on it is checked not to leave the type. */
  newtype sum32 = x: int | 0 <= x < 0x1_0000_0000

  // ----- The checksum as defined -----

  function Word(lo: uint8, hi: uint8): uint16 {
    lo + 256 * hi
  }

  /** Little-endian 16-bit words; an odd last byte is padded with zero. */
  function Words(m: seq<uint8>): (w: seq<uint16>)
    ensures |w| == (|m| + 1) / 2
  {
    if |m| == 0 then []
    else if |m| == 1 then [Word(m[0], 0)]
    else [Word(m[0], m[1])] + Words(m[2..])
  }

  /** The sum of the words. */
  function Sum1(w: seq<uint16>): nat {
    if w == [] then 0 else Sum1(w[..|w| - 1]) + w[|w| - 1]
  }

  /** The sum of all the partial sums. */
  function Sum2(w: seq<uint16>): nat {
    if w == [] then 0 else Sum2(w[..|w| - 1]) + Sum1(w)
  }

  /** A number modulo 65535, with residue 0 written as 0xFFFF. */
  function Residue(x: nat): (r: uint16)
    ensures 0 < r && r % 65535 == x % 65535
  {
    if x % 65535 == 0 then 0xffff else x % 65535
  }

  function WordsChecksum(w: seq<uint16>): nat {
    Residue(Sum2(w)) * 0x1_0000 + Residue(Sum1(w))
  }

  function Checksum(m: seq<uint8>): nat {
    WordsChecksum(Words(m))
  }

  lemma SumSnoc(w: seq<uint16>, d: uint16)
    ensures Sum1(w + [d]) == Sum1(w) + d
    ensures Sum2(w + [d]) == Sum2(w) + Sum1(w) + d
  {
    assert (w + [d])[..|w|] == w;
  }

  lemma {:induction false} WordsConcat(a: seq<uint8>, b: seq<uint8>)
    requires |a| % 2 == 0
    ensures Words(a + b) == Words(a) + Words(b)
  {
    if a == [] {
      assert a + b == b;
    } else {
      assert (a + b)[2..] == a[2..] + b;
      WordsConcat(a[2..], b);
    }
  }

  /** The word at position k is made of bytes 2k and 2k + 1. */
  lemma {:induction false} WordAt(m: seq<uint8>, k: nat)
    requires 2 * k + 1 < |m|
    ensures Words(m)[k] == Word(m[2 * k], m[2 * k + 1])
  {
    if k > 0 {
      WordAt(m[2..], k - 1);
    }
  }

  // ----- Running sums -----

  /** The folding step: high half added to low half. */
  function Fold(x: sum32): sum32 {
    x % 0x1_0000 + x / 0x1_0000
  }

  lemma FoldKeepsResidue(x: sum32)
    ensures Fold(x) as int % 65535 == x as int % 65535
    ensures Fold(x) == 0 <==> x == 0
  {}

  /** s1 and s2 are positive and stand for the two sums of w modulo 65535. */
  ghost predicate Tracks(s1: sum32, s2: sum32, w: seq<uint16>) {
    && 0 < s1 && s1 as int % 65535 == Sum1(w) % 65535
    && 0 < s2 && s2 as int % 65535 == Sum2(w) % 65535
  }

  lemma TracksFold(s1: sum32, s2: sum32, w: seq<uint16>)
    requires Tracks(s1, s2, w)
    ensures Tracks(Fold(s1), Fold(s2), w)
  {
    FoldKeepsResidue(s1);
    FoldKeepsResidue(s2);
  }

  lemma AddMod(a: int, b: int, c: int, d: int)
    requires a % 65535 == b % 65535 && c % 65535 == d % 65535
    ensures (a + c) % 65535 == (b + d) % 65535
  {}

  lemma TracksAdd(s1: sum32, s2: sum32, w: seq<uint16>, d: uint16, t1: sum32, t2: sum32)
    requires Tracks(s1, s2, w)
    requires t1 as int == s1 as int + d && t2 as int == s2 as int + t1 as int
    ensures Tracks(t1, t2, w + [d])
  {
    SumSnoc(w, d);
    AddMod(s1 as int, Sum1(w), d, d);
    AddMod(s2 as int, Sum2(w), t1 as int, Sum1(w) + d);
  }

  // ----- No 32-bit addition wraps -----

  /** The largest values the sums can have between blocks. */
  const MAX_SUM1: int := 0xffff + 360
  const MAX_SUM2: int := 0x1fffe

  function Triangle(j: nat): nat {
    if j == 0 then 0 else Triangle(j - 1) + j
  }

  lemma {:induction false} TriangleValue(j: nat)
    ensures 2 * Triangle(j) == j * (j + 1)
  {
    if j > 0 {
      TriangleValue(j - 1);
      assert j * (j + 1) == (j - 1) * j + 2 * j;
    }
  }

  /** How large the sums can be j words into a block. */
  ghost predicate WithinBlock(s1: sum32, s2: sum32, j: nat) {
    && s1 as int <= MAX_SUM1 + 0xffff * j
    && s2 as int <= MAX_SUM2 + MAX_SUM1 * j + 0xffff * Triangle(j)
  }

  /** The next word still fits: no sum reaches 2^32 inside a block of 360 words. */
  lemma NextWordFits(s1: sum32, s2: sum32, j: nat, d: uint16)
    requires WithinBlock(s1, s2, j) && j < 360
    ensures s1 as int + d < 0x1_0000_0000
    ensures s2 as int + (s1 as int + d) < 0x1_0000_0000
    ensures s1 as int + d <= MAX_SUM1 + 0xffff * (j + 1)
    ensures s2 as int + (s1 as int + d) <= MAX_SUM2 + MAX_SUM1 * (j + 1) + 0xffff * Triangle(j + 1)
  {
    TriangleValue(j + 1);
    TriangleMax(j + 1);
  }

  lemma TriangleMax(j: nat)
    requires j <= 360
    ensures j * (j + 1) <= 360 * 361
  {
    assert 360 * 361 - j * (j + 1) == (360 - j) * (361 + j);
    Positive(360 - j, 361 + j);
  }

  lemma Positive(a: nat, b: nat)
    ensures a * b >= 0
  {}

  /** Folding at the end of a block brings both sums back within their bounds. */
  lemma FoldBounds(s1: sum32, s2: sum32, j: nat)
    requires WithinBlock(s1, s2, j) && j <= 360
    ensures Fold(s1) as int <= MAX_SUM1 && Fold(s2) as int <= MAX_SUM2
  {}

  /** `data` is the first of the words, and the others lie in b from p on. */
  ghost predicate Ahead(b: seq<uint8>, p: nat, data: uint16, words: seq<uint16>) {
    words != [] ==>
      && data == words[0]
      && p + 2 * (|words| - 1) <= |b|
      && forall k {:trigger words[k]} :: 1 <= k < |words| ==> words[k] == Word(b[p + 2 * k - 2], b[p + 2 * k - 1])
  }

  lemma AheadNext(b: seq<uint8>, p: nat, data: uint16, words: seq<uint16>, next: uint16)
    requires words != [] && Ahead(b, p, data, words)
    requires p + 1 < |b| ==> next == Word(b[p], b[p + 1])
    ensures Ahead(b, p + 2, next, words[1..])
  {
    forall k | 1 <= k < |words[1..]|
      ensures words[1..][k] == Word(b[p + 2 + 2 * k - 2], b[p + 2 + 2 * k - 1])
    {
      assert words[1..][k] == words[k + 1];
    }
  }

  /** The words of an update: c is the carried byte, if there is one, and b the new bytes. */
  lemma AheadStart(c: seq<uint8>, b: seq<uint8>, p: nat, data: uint16)
    requires |c| <= 1 && (|c| + |b| >= 2 ==> p == 2 - |c|)
    requires |c| == 1 && |b| > 0 ==> data == Word(c[0], b[0])
    requires |c| == 0 && |b| > 1 ==> data == Word(b[0], b[1])
    ensures var s := c + b;
            Ahead(b, p, data, Words(s[..|s| / 2 * 2])) && |Words(s[..|s| / 2 * 2])| == |s| / 2
  {
    hide Words, Word;
    var s := c + b;
    var whole := s[..|s| / 2 * 2];
    var w := Words(whole);
    if w != [] {
      WordAt(whole, 0);
      forall k | 1 <= k < |w| ensures w[k] == Word(b[p + 2 * k - 2], b[p + 2 * k - 1]) {
        WordAt(whole, k);
      }
    }
  }

  /** Where the last complete word ends when more bytes arrive. */
  lemma EvenAfter(c: seq<uint8>, b: seq<uint8>)
    ensures var e := |c| / 2 * 2;
            var s := c[e..] + b;
            (c + b)[..|c + b| / 2 * 2] == c[..e] + s[..|s| / 2 * 2]
  {}

  class Fletcher32 {
    var sum1: sum32
    var sum2: sum32
    var carry: int

    /** Every byte given so far. */
    ghost var consumed: seq<uint8>

    ghost function Even(): seq<uint8>
      reads this
    {
      consumed[..|consumed| / 2 * 2]
    }

    ghost predicate Valid()
      reads this
    {
      && Tracks(sum1, sum2, Words(Even()))
      && sum1 as int <= MAX_SUM1 && sum2 as int <= MAX_SUM2
      && carry == if |consumed| % 2 == 1 then consumed[|consumed| - 1] else -1
    }

    /** `fletcher32_init`. */
    constructor ()
      ensures Valid() && consumed == []
    {
      sum1 := 0xffff;
      sum2 := 0xffff;
      carry := -1;
      consumed := [];
    }

    /** Read two bytes at p. Past the end of the buffer the value is whatever lies there. */
    static method Fetch(buf: seq<uint8>, p: nat) returns (data: uint16)
      ensures p + 1 < |buf| ==> data == Word(buf[p], buf[p + 1])
    {
      var lo: uint8, hi: uint8 := *, *;
      if p < |buf| {
        lo := buf[p];
      }
      if p + 1 < |buf| {
        hi := buf[p + 1];
      }
      data := lo + 256 * hi;
    }

    /** The inner loop over a block of tlen words, and the fold after it. `data` always holds the next word. */
    method AddBlock(buf: seq<uint8>, p0: nat, data0: uint16, tlen0: nat,
                    ghost words: seq<uint16>, ghost done: seq<uint16>)
      returns (p: nat, data: uint16)
      requires 0 < tlen0 <= 360 && tlen0 <= |words|
      requires Ahead(buf, p0, data0, words)
      requires Tracks(sum1, sum2, done) && sum1 as int <= MAX_SUM1 && sum2 as int <= MAX_SUM2
      modifies this`sum1, this`sum2
      ensures Ahead(buf, p, data, words[tlen0..])
      ensures Tracks(sum1, sum2, done + words[..tlen0]) && sum1 as int <= MAX_SUM1 && sum2 as int <= MAX_SUM2
    {
      hide Tracks;
      var tlen := tlen0;
      p, data := p0, data0;
      ghost var j: nat := 0;
      assert done + words[..0] == done && words[0..] == words;
      while tlen > 0
        invariant j + tlen == tlen0
        invariant Ahead(buf, p, data, words[j..])
        invariant Tracks(sum1, sum2, done + words[..j])
        invariant WithinBlock(sum1, sum2, j)
      {
        NextWordFits(sum1, sum2, j, data);
        ghost var s1, s2 := sum1, sum2;
        sum1 := sum1 + data as sum32;
        sum2 := sum2 + sum1;
        TracksAdd(s1, s2, done + words[..j], data, sum1, sum2);
        assert done + words[..j] + [data] == done + words[..j + 1];
        ghost var before := data;
        data := Fetch(buf, p);
        AheadNext(buf, p, before, words[j..], data);
        assert words[j..][1..] == words[j + 1..];
        p := p + 2;
        tlen := tlen - 1;
        j := j + 1;
      }
      FoldBounds(sum1, sum2, j);
      TracksFold(sum1, sum2, done + words[..tlen0]);
      sum1 := Fold(sum1);
      sum2 := Fold(sum2);
    }

    /** The outer loop: blocks of at most 360 words. */
    method AddWords(buf: seq<uint8>, p0: nat, data0: uint16, l0: nat,
                    ghost words: seq<uint16>, ghost done: seq<uint16>)
      requires l0 == |words|
      requires Ahead(buf, p0, data0, words)
      requires Tracks(sum1, sum2, done) && sum1 as int <= MAX_SUM1 && sum2 as int <= MAX_SUM2
      modifies this`sum1, this`sum2
      ensures Tracks(sum1, sum2, done + words) && sum1 as int <= MAX_SUM1 && sum2 as int <= MAX_SUM2
    {
      hide Tracks, Ahead;
      var l, p, data := l0, p0, data0;
      ghost var k: nat := 0;
      assert done + words[..0] == done && words[0..] == words;
      while l > 0
        invariant 0 <= l && k + l == |words|
        invariant Ahead(buf, p, data, words[k..])
        invariant Tracks(sum1, sum2, done + words[..k])
        invariant sum1 as int <= MAX_SUM1 && sum2 as int <= MAX_SUM2
      {
        var tlen := if l < 360 then l else 360;
        l := l - tlen;
        p, data := AddBlock(buf, p, data, tlen, words[k..], done + words[..k]);
        assert done + words[..k] + words[k..][..tlen] == done + words[..k + tlen];
        assert words[k..][tlen..] == words[k + tlen..];
        k := k + tlen;
      }
      assert words[..k] == words;
    }

    /** `fletcher32_update`. */
    method Update(buf: seq<uint8>)
      requires Valid()
      modifies this
      ensures Valid() && consumed == old(consumed) + buf
    {
      hide Tracks, Ahead, Words;
      ghost var carried := consumed[|consumed| / 2 * 2..];
      ghost var stream := carried + buf;
      ghost var whole := stream[..|stream| / 2 * 2];
      ghost var before := Even();

      var data: uint16 := 0;
      var p, n := 0, |buf|;
      var last: uint8 := *;
      if n > 0 {
        last := buf[n - 1];
      }
      if carry != -1 && n != 0 {
        data := Word(carry, buf[p]);
        p := p + 1;
        carry := -1;
        n := n + 1;
      } else if n > 1 {
        data := Word(buf[p], buf[p + 1]);
        p := p + 2;
      }
      if n % 2 == 1 {
        carry := last;
      }

      AheadStart(carried, buf, p, data);
      EvenAfter(consumed, buf);
      WordsConcat(before, whole);
      AddWords(buf, p, data, n / 2, Words(whole), Words(before));
      consumed := consumed + buf;
    }

    /** `fletcher32_final`. */
    method Final() returns (r: sum32)
      requires Valid()
      ensures r as int == Checksum(consumed)
    {
      hide Tracks, Words, WordsChecksum, Fold;
      var s1, s2 := sum1, sum2;
      if carry != -1 {
        s1, s2 := AddLast(s1, s2, carry, Words(Even()));
        LastWord();
      } else {
        assert Even() == consumed;
      }
      r := Pack(s1, s2, Words(consumed));
    }

    lemma LastWord()
      requires Valid() && carry != -1
      ensures Words(consumed) == Words(Even()) + [carry]
    {
      assert consumed == Even() + [carry];
      WordsConcat(Even(), [carry]);
    }
  }

  /** The odd byte is the last word. */
  method AddLast(sum1: sum32, sum2: sum32, carry: uint8, ghost w: seq<uint16>) returns (s1: sum32, s2: sum32)
    requires Tracks(sum1, sum2, w) && sum1 as int <= MAX_SUM1 && sum2 as int <= MAX_SUM2
    ensures Tracks(s1, s2, w + [carry]) && s1 as int <= MAX_SUM1 && s2 as int <= MAX_SUM2
  {
    hide Tracks;
    s1 := sum1 + carry as sum32;
    s2 := sum2 + s1;
    TracksAdd(sum1, sum2, w, carry, s1, s2);
    TracksFold(s1, s2, w + [carry]);
    s1 := Fold(s1);
    s2 := Fold(s2);
  }

  /** The second reduction leaves the two residues, which become the halves of the result. */
  method Pack(sum1: sum32, sum2: sum32, ghost w: seq<uint16>) returns (r: sum32)
    requires Tracks(sum1, sum2, w) && sum1 as int <= MAX_SUM1 && sum2 as int <= MAX_SUM2
    ensures r as int == WordsChecksum(w)
  {
    TracksFold(sum1, sum2, w);
    var s1, s2 := Fold(sum1), Fold(sum2);
    ReducedIsResidue(s1, Sum1(w));
    ReducedIsResidue(s2, Sum2(w));
    // the halves fit 16 bits, so nothing is shifted out and the bitwise or is a sum
    r := s2 * 0x1_0000 + s1;
  }

  lemma ReducedIsResidue(s: sum32, x: nat)
    requires 0 < s <= 0xffff && s as int % 65535 == x % 65535
    ensures s as int == Residue(x)
  {}

  // ----- The checksum byte by byte -----

  /** What one byte adds to the sum: a byte at an even place is the low half of its word. */
  function Weighted(i: nat, b: uint8): nat {
    if i % 2 == 0 then b else 256 * b
  }

  function ByteSum(m: seq<uint8>): nat {
    if m == [] then 0
    else
      var n := |m| - 1;
      ByteSum(m[..n]) + Weighted(n, m[n])
  }

  /** The same sum with every byte counted once for each of `words` words from its own on. */
  function CountedSum(m: seq<uint8>, words: int): int {
    if m == [] then 0
    else
      var n := |m| - 1;
      CountedSum(m[..n], words) + (words - n / 2) * Weighted(n, m[n])
  }

  lemma ByteSnoc(m: seq<uint8>, b: uint8, words: int)
    ensures ByteSum(m + [b]) == ByteSum(m) + Weighted(|m|, b)
    ensures CountedSum(m + [b], words) == CountedSum(m, words) + (words - |m| / 2) * Weighted(|m|, b)
  {
    hide Weighted;
    assert (m + [b])[..|m|] == m;
  }

  lemma OneMore(k: int, x: int)
    ensures (k + 1) * x == k * x + x
  {
  }

  /** One word more counts every byte once more. */
  lemma {:induction false} CountedOnceMore(m: seq<uint8>, words: int)
    ensures CountedSum(m, words + 1) == CountedSum(m, words) + ByteSum(m)
    decreases |m|
  {
    hide Weighted;
    if m != [] {
      var n := |m| - 1;
      CountedOnceMore(m[..n], words);
      OneMore(words - n / 2, Weighted(n, m[n]));
    }
  }

  lemma WordsAtEnd(a: seq<uint8>, x: uint8, y: uint8)
    requires |a| % 2 == 0
    ensures Words(a + [x]) == Words(a) + [Word(x, 0)]
    ensures Words(a + [x, y]) == Words(a) + [Word(x, y)]
  {
    LastWords(x, y);
    hide Words;
    WordsConcat(a, [x]);
    WordsConcat(a, [x, y]);
  }

  lemma LastWords(x: uint8, y: uint8)
    ensures Words([x]) == [Word(x, 0)] && Words([x, y]) == [Word(x, y)]
  {
    assert [x, y][2..] == [];
  }

  lemma EvenByte(a: seq<uint8>, x: uint8)
    requires |a| % 2 == 0
    ensures ByteSum(a + [x]) == ByteSum(a) + x
    ensures CountedSum(a + [x], |a| / 2 + 1) == CountedSum(a, |a| / 2) + ByteSum(a) + x
  {
    hide CountedSum, ByteSum;
    ByteSnoc(a, x, |a| / 2 + 1);
    CountedOnceMore(a, |a| / 2);
  }

  lemma OddByte(a: seq<uint8>, y: uint8, words: int)
    requires |a| % 2 == 1 && words == |a| / 2 + 1
    ensures ByteSum(a + [y]) == ByteSum(a) + 256 * y
    ensures CountedSum(a + [y], words) == CountedSum(a, words) + 256 * y
  {
    hide CountedSum, ByteSum;
    ByteSnoc(a, y, words);
  }

  /** The sums of the words are these sums of the bytes. */
  lemma {:induction false} SumsByBytes(m: seq<uint8>)
    ensures Sum1(Words(m)) == ByteSum(m)
    ensures Sum2(Words(m)) == CountedSum(m, (|m| + 1) / 2)
    decreases |m|
  {
    hide Sum1, Sum2, ByteSum, CountedSum, Words;
    if m == [] {
      NoBytes();
    } else if |m| % 2 == 1 {
      var a, x := m[..|m| - 1], m[|m| - 1];
      SumsByBytes(a);
      WordsAtEnd(a, x, 0);
      EvenByte(a, x);
      SumSnoc(Words(a), Word(x, 0));
      assert m == a + [x];
    } else {
      var a, x, y := m[..|m| - 2], m[|m| - 2], m[|m| - 1];
      SumsByBytes(a);
      WordsAtEnd(a, x, y);
      EvenByte(a, x);
      OddByte(a + [x], y, |a| / 2 + 1);
      SumSnoc(Words(a), Word(x, y));
      assert m == a + [x, y] == a + [x] + [y];
    }
  }

  lemma NoBytes()
    ensures Sum1(Words([])) == Sum2(Words([])) == 0
    ensures ByteSum([]) == 0 && CountedSum([], 0) == 0
  {
  }

  /** The two halves of the checksum, for every string of bytes: each is from 1 to 0xFFFF; the low one is
      congruent to the sum of the bytes, and the high one to the sum in which each byte is counted once for every
      word from its own to the last. */
  lemma Halves(m: seq<uint8>)
    ensures var low, high := Checksum(m) % 0x1_0000, Checksum(m) / 0x1_0000;
            && 1 <= low <= 0xffff && low % 65535 == ByteSum(m) % 65535
            && 1 <= high <= 0xffff && high % 65535 == CountedSum(m, (|m| + 1) / 2) % 65535
  {
    hide Residue, Sum1, Sum2, ByteSum, CountedSum, Words;
    SumsByBytes(m);
  }

  lemma SumsOfLetters()
    ensures ByteSum([97, 98, 99, 100, 101]) == 0xC729
    ensures CountedSum([97, 98, 99, 100, 101], 3) == 0x1_F04E
  {
    var m := [97, 98, 99, 100, 101];
    assert m[..4] == [97, 98, 99, 100];
    assert m[..4][..3] == [97, 98, 99];
    assert [97, 98, 99][..2] == [97, 98];
    assert [97, 98][..1] == [97];
    assert [97][..0] == [];
  }

  /** The published answer for the letters a to e. */
  lemma KnownAnswer()
    ensures Checksum([97, 98, 99, 100, 101]) == 0xF04F_C729
  {
    hide Checksum, ByteSum, CountedSum;
    var m := [97, 98, 99, 100, 101];
    Halves(m);
    SumsOfLetters();
    OnlyResidue(Checksum(m) % 0x1_0000, 0xC729);
    OnlyResidue(Checksum(m) / 0x1_0000, 0xF04F);
  }

  lemma OnlyResidue(x: nat, y: nat)
    requires 1 <= x <= 0xffff && 1 <= y < 0xffff && x % 65535 == y % 65535
    ensures x == y
  {
  }

  // ----- What the checksum detects -----

  /** Changing one word changes the sums by that much, once for every word from there to the end. */
  lemma {:induction false} SumsOfChange(w: seq<uint16>, k: nat, y: uint16)
    requires k < |w|
    ensures Sum1(w[k := y]) == Sum1(w) + y - w[k]
    ensures Sum2(w[k := y]) == Sum2(w) + (|w| - k) * (y - w[k])
    decreases |w|
  {
    var n := |w| - 1;
    if k < n {
      assert w[k := y][..n] == w[..n][k := y];
      SumsOfChange(w[..n], k, y);
      assert (n - k) * (y - w[k]) + (y - w[k]) == (n + 1 - k) * (y - w[k]);
    } else {
      assert w[k := y][..n] == w[..n];
      assert (|w| - k) * (y - w[k]) == y - w[k];
    }
  }

  lemma ResidueDecides(x: nat, y: nat)
    ensures Residue(x) == Residue(y) <==> x % 65535 == y % 65535
  {}

  lemma HalvesDecide(a: seq<uint16>, b: seq<uint16>)
    ensures WordsChecksum(a) == WordsChecksum(b)
            <==> Sum1(a) % 65535 == Sum1(b) % 65535 && Sum2(a) % 65535 == Sum2(b) % 65535
  {
    ResidueDecides(Sum1(a), Sum1(b));
    ResidueDecides(Sum2(a), Sum2(b));
  }

  lemma ModShift(a: int, n: int)
    ensures (a + n * 65535) % 65535 == a % 65535
  {}

  lemma ScaleVanishes(n: int, delta: int)
    requires delta % 65535 == 0
    ensures (n * delta) % 65535 == 0
  {
    var q := delta / 65535;
    assert delta == q * 65535;
    assert n * delta == (n * q) * 65535;
    ModShift(0, n * q);
  }

  lemma AddVanishes(a: int, x: int)
    ensures (a + x) % 65535 == a % 65535 <==> x % 65535 == 0
  {}

  /** Changing one word is missed only when 0x0000 and 0xFFFF are exchanged. */
  lemma OneWordChange(w: seq<uint16>, k: nat, y: uint16)
    requires k < |w|
    ensures WordsChecksum(w[k := y]) == WordsChecksum(w)
            <==> y == w[k] || {y, w[k]} == {0, 0xffff}
  {
    var n: int, delta: int := |w| - k, y - w[k] as int;
    SumsOfChange(w, k, y);
    HalvesDecide(w[k := y], w);
    AddVanishes(Sum1(w), delta);
    AddVanishes(Sum2(w), n * delta);
    ChangeResidue(y, w[k]);
    if delta % 65535 == 0 {
      ScaleVanishes(n, delta);
    }
  }

  lemma ChangeResidue(x: uint16, y: uint16)
    ensures (x as int - y as int) % 65535 == 0 <==> x == y || {x, y} == {0, 0xffff}
  {}

  /** Exchanging two words is missed exactly when distance times difference vanishes modulo 65535. */
  lemma SwappedWords(w: seq<uint16>, i: nat, j: nat)
    requires i < j < |w|
    ensures WordsChecksum(w[i := w[j]][j := w[i]]) == WordsChecksum(w)
            <==> ((j - i) * (w[j] as int - w[i] as int)) % 65535 == 0
  {
    var v := w[i := w[j]];
    var n: int, delta: int := |w|, w[j] as int - w[i] as int;
    SumsOfChange(w, i, w[j]);
    SumsOfChange(v, j, w[i]);
    HalvesDecide(v[j := w[i]], w);
    SwapSums(n, i, j, delta);
    AddVanishes(Sum2(w), (j - i) * delta);
  }

  lemma SwapSums(n: int, i: int, j: int, delta: int)
    ensures (n - i) * delta + (n - j) * (-delta) == (j - i) * delta
  {}
}
