/** Run-length encoding and decoding (bertos/algo/rle.c). */
module Rle {

  import opened CTypes

  // ----- What the encoder writes -----

  /** The end of the run of equal bytes that starts at `count`, at most 127 long. */
  function RunEnd(s: seq<uint8>, count: nat, index: nat): (end: nat)
    requires count < index <= |s| && index - count <= 127
    ensures index <= end <= |s| && end - count <= 127
    decreases |s| - index
  {
    if index < |s| && index - count < 127 && s[index] == s[count] then RunEnd(s, count, index + 1) else index
  }

  /** The end of the literal run that starts at `count`: before three equal bytes, or after 127. */
  function LiteralEnd(s: seq<uint8>, count: nat, index: nat): (end: nat)
    requires count < index <= |s| && index - count <= 127
    ensures end <= |s| && end - count <= 127
    decreases |s| - index
  {
    if index < |s| && index - count < 127 then
      if s[index] == s[index - 1] && index > 1 && s[index] == s[index - 2] then index - 2
      else LiteralEnd(s, count, index + 1)
    else index
  }

  /** Where the run that starts at `count` ends. */
  function Next(s: seq<uint8>, count: nat): (end: nat)
    requires count < |s|
    ensures end <= |s| && end - count <= 127
  {
    var index := RunEnd(s, count, count + 1);
    if index - count == 1 then LiteralEnd(s, count, index) else index
  }

  predicate Literal(s: seq<uint8>, count: nat)
    requires count < |s|
  {
    RunEnd(s, count, count + 1) - count == 1
  }

  /** Everything in the run equals its first byte. */
  lemma {:induction false} RunIsUniform(s: seq<uint8>, count: nat, index: nat)
    requires count < index <= |s| && index - count <= 127
    requires forall i :: count <= i < index ==> s[i] == s[count]
    ensures forall i :: count <= i < RunEnd(s, count, index) ==> s[i] == s[count]
    decreases |s| - index
  {
    if index < |s| && index - count < 127 && s[index] == s[count] {
      RunIsUniform(s, count, index + 1);
    }
  }

  /** Three equal bytes start at i. */
  predicate Triple(s: seq<uint8>, i: nat) {
    i + 2 < |s| && s[i] == s[i + 1] == s[i + 2]
  }

  /** A literal run makes progress, even though the scan backs up by two, and if it is shorter than 127
      it ends the input or is followed by three equal bytes. */
  lemma {:induction false} LiteralStops(s: seq<uint8>, count: nat, index: nat)
    requires count < index <= |s| && index - count <= 127
    requires count + 1 < |s| ==> s[count + 1] != s[count]
    ensures count < LiteralEnd(s, count, index)
    ensures var end := LiteralEnd(s, count, index);
            end < |s| && end - count < 127 ==> Triple(s, end)
    decreases |s| - index
  {
    if index < |s| && index - count < 127 {
      if s[index] == s[index - 1] && index > 1 && s[index] == s[index - 2] {
        // the second byte of the run differs from the first, so the triple starts after it
        assert index - 2 > count;
      } else {
        LiteralStops(s, count, index + 1);
      }
    }
  }

  /** The scan stops at the first triple: none lies inside a literal run. */
  lemma {:induction false} NoTripleInside(s: seq<uint8>, count: nat, index: nat, i: nat)
    requires count < index <= |s| && index - count <= 127
    requires forall k :: count <= k && k + 2 < index ==> !Triple(s, k)
    requires count + 1 < |s| ==> s[count + 1] != s[count]
    requires count <= i && i + 2 < LiteralEnd(s, count, index)
    ensures !Triple(s, i)
    decreases |s| - index
  {
    if index < |s| && index - count < 127 {
      if !(s[index] == s[index - 1] && index > 1 && s[index] == s[index - 2]) {
        assert index >= 2 ==> !Triple(s, index - 2);
        NoTripleInside(s, count, index + 1, i);
      }
    }
  }

  /** A repetition shorter than 127 ends only where the input ends or another byte follows. */
  lemma {:induction false} RunIsMaximal(s: seq<uint8>, count: nat, index: nat)
    requires count < index <= |s| && index - count <= 127
    ensures var end := RunEnd(s, count, index); end < |s| && end - count < 127 ==> s[end] != s[count]
    decreases |s| - index
  {
    if index < |s| && index - count < 127 && s[index] == s[count] {
      RunIsMaximal(s, count, index + 1);
    }
  }

  /** What a run of the encoding is: a literal run is as long as it can be without three equal bytes in it, and a
      repetition consists of equal bytes and is as long as it can be, both up to 127. */
  lemma RunsAreMaximal(s: seq<uint8>, count: nat)
    requires count < |s|
    ensures var end := Next(s, count);
            && (Literal(s, count) ==>
              && (forall i :: count <= i && i + 2 < end ==> !Triple(s, i))
              && (end < |s| && end - count < 127 ==> Triple(s, end)))
            && (!Literal(s, count) ==>
              && (forall i :: count <= i < end ==> s[i] == s[count])
              && (end < |s| && end - count < 127 ==> s[end] != s[count]))
  {
    var end := Next(s, count);
    RunIsMaximal(s, count, count + 1);
    if Literal(s, count) {
      LiteralFacts(s, count);
      forall i | count <= i && i + 2 < end ensures !Triple(s, i) {
        NoTripleInside(s, count, count + 1, i);
      }
    } else {
      RunIsUniform(s, count, count + 1);
    }
  }

  lemma LiteralFacts(s: seq<uint8>, count: nat)
    requires count < |s| && Literal(s, count)
    ensures count < Next(s, count)
    ensures Next(s, count) < |s| && Next(s, count) - count < 127 ==> Triple(s, Next(s, count))
  {
    LiteralStops(s, count, count + 1);
  }

  /** The encoder always moves on. */
  lemma Progress(s: seq<uint8>, count: nat)
    requires count < |s|
    ensures count < Next(s, count)
  {
    if Literal(s, count) {
      LiteralFacts(s, count);
    }
  }

  /** Three equal bytes are never left to a literal run or a run of two. */
  lemma TripleIsRun(s: seq<uint8>, i: nat)
    requires Triple(s, i)
    ensures !Literal(s, i) && Next(s, i) >= i + 3
  {
    assert RunEnd(s, i, i + 1) == RunEnd(s, i, i + 2) == RunEnd(s, i, i + 3);
  }

  /** A header and what follows it: 1..127 for a run, -127..-1 as a byte for a literal. */
  function Chunk(s: seq<uint8>, count: nat): (t: seq<uint8>)
    requires count < |s| && count < Next(s, count)
    ensures |t| >= 2
  {
    var index := Next(s, count);
    if Literal(s, count) then [256 - (index - count)] + s[count..index] else [index - count, s[count]]
  }

  function EncodeFrom(s: seq<uint8>, count: nat): (t: seq<uint8>)
    requires count <= |s|
    decreases |s| - count
  {
    if count == |s| then [0]
    else
      Progress(s, count);
      Chunk(s, count) + EncodeFrom(s, Next(s, count))
  }

  function Encode(s: seq<uint8>): seq<uint8> {
    EncodeFrom(s, 0)
  }

  // ----- What the decoder reads -----

  /** The decoder runs to the end mark, or off the end of its input. */
  datatype Decoded = Overrun | Done(output: seq<uint8>, used: nat)

  function Prefixed(out: seq<uint8>, used: nat, d: Decoded): Decoded {
    match d
    case Overrun => Overrun
    case Done(o, u) => Done(out + o, used + u)
  }

  function Repeat(n: nat, v: uint8): (r: seq<uint8>)
    ensures |r| == n && forall i :: 0 <= i < n ==> r[i] == v
  {
    seq(n, _ => v)
  }

  /** A byte read as a signed char. */
  function Signed(b: uint8): int {
    if b < 0x80 then b else b - 0x100
  }

  function Decode(t: seq<uint8>): Decoded
    decreases |t|
  {
    if t == [] then Overrun
    else
      var count := Signed(t[0]);
      if count > 0 then
        if |t| < 2 then Overrun else Prefixed(Repeat(count, t[1]), 2, Decode(t[2..]))
      else if count < 0 then
        if |t| < 1 - count then Overrun else Prefixed(t[1..1 - count], 1 - count, Decode(t[1 - count..]))
      else Done([], 1)
  }

  /** A header is never the end mark and never -128; it holds the length of its run, negative for a
      literal one, and a run written as a repetition is at least two bytes long. */
  lemma Headers(s: seq<uint8>, count: nat)
    requires count < |s|
    ensures var n := Next(s, count) - count;
            1 <= n <= 127 && Signed(Chunk(s, count)[0]) == (if Literal(s, count) then -n else n)
    ensures !Literal(s, count) ==> Next(s, count) - count >= 2
  {
    Progress(s, count);
  }

  lemma PrefixedTwice(a: seq<uint8>, m: nat, b: seq<uint8>, n: nat, d: Decoded)
    ensures Prefixed(a, m, Prefixed(b, n, d)) == Prefixed(a + b, m + n, d)
  {
    if d.Done? {
      assert a + (b + d.output) == (a + b) + d.output;
    }
  }

  lemma DecodeLiteral(run: seq<uint8>, rest: seq<uint8>)
    requires 1 <= |run| <= 127
    ensures Decode([256 - |run|] + run + rest) == Prefixed(run, |run| + 1, Decode(rest))
  {
    var t := [256 - |run|] + run + rest;
    assert Signed(t[0]) == -|run|;
    assert t[1..1 + |run|] == run;
    assert t[1 + |run|..] == rest;
  }

  lemma DecodeRun(n: nat, v: uint8, rest: seq<uint8>)
    requires 1 <= n <= 127
    ensures Decode([n, v] + rest) == Prefixed(Repeat(n, v), 2, Decode(rest))
  {
    var t := [n, v] + rest;
    assert Signed(t[0]) == n;
    assert t[2..] == rest;
  }

  /** What a chunk decodes to, whatever comes after it. */
  lemma DecodeChunk(s: seq<uint8>, count: nat, rest: seq<uint8>)
    requires count < |s| && count < Next(s, count)
    ensures Decode(Chunk(s, count) + rest)
            == Prefixed(s[count..Next(s, count)], |Chunk(s, count)|, Decode(rest))
  {
    hide Decode, Prefixed, LiteralEnd;
    var index := Next(s, count);
    if Literal(s, count) {
      DecodeLiteral(s[count..index], rest);
    } else {
      RunIsUniform(s, count, count + 1);
      assert Repeat(index - count, s[count]) == s[count..index];
      DecodeRun(index - count, s[count], rest);
    }
  }

  lemma DecodeEnd(rest: seq<uint8>)
    ensures Decode([0] + rest) == Done([], 1)
  {
    assert ([0] + rest)[0] == 0;
  }

  lemma {:induction false} DecodeEncodeFrom(s: seq<uint8>, count: nat, rest: seq<uint8>)
    requires count <= |s|
    ensures Decode(EncodeFrom(s, count) + rest) == Done(s[count..], |EncodeFrom(s, count)|)
    decreases |s| - count
  {
    hide Decode, Next, Chunk;
    if count == |s| {
      DecodeEnd(rest);
    } else {
      Progress(s, count);
      var index := Next(s, count);
      var c, e := Chunk(s, count), EncodeFrom(s, index);
      DecodeEncodeFrom(s, index, rest);
      DecodeChunk(s, count, e + rest);
      assert EncodeFrom(s, count) + rest == c + (e + rest) by {
        assert c + e + rest == c + (e + rest);
      }
      assert s[count..index] + s[index..] == s[count..];
    }
  }

  /** Decoding an encoding gives back the input and stops exactly at its end, whatever lies behind it. */
  lemma RoundTrip(s: seq<uint8>, rest: seq<uint8>)
    ensures Decode(Encode(s) + rest) == Done(s, |Encode(s)|)
  {
    DecodeEncodeFrom(s, 0, rest);
    assert s[0..] == s;
  }

  // ----- How long the encoding can get -----

  function WorstCase(n: nat): nat {
    n + (n + 126) / 127 + 1
  }

  lemma {:induction false} SizeFrom(s: seq<uint8>, count: nat)
    requires count <= |s|
    ensures |EncodeFrom(s, count)| + (if Triple(s, count) then 1 else 0) <= WorstCase(|s| - count)
    decreases |s| - count
  {
    if count < |s| {
      Progress(s, count);
      SizeFrom(s, Next(s, count));
      if Literal(s, count) {
        LiteralFacts(s, count);
      }
      if Triple(s, count) {
        TripleIsRun(s, count);
      }
    }
  }

  /** The encoding of n bytes never exceeds n + ceil(n / 127) + 1 bytes. */
  lemma WorstCaseSize(s: seq<uint8>)
    ensures |Encode(s)| <= WorstCase(|s|)
  {
    SizeFrom(s, 0);
  }

  /** An input without two equal neighbours. */
  function Alternating(n: nat): (s: seq<uint8>)
    ensures |s| == n && forall i :: 0 <= i < n ==> s[i] == i % 2
  {
    seq(n, i => i % 2)
  }

  lemma {:induction false} AlternatingLiteral(n: nat, count: nat, index: nat)
    requires count < index <= n && index - count <= 127
    ensures LiteralEnd(Alternating(n), count, index) == if n - count <= 127 then n else count + 127
    decreases n - index
  {
    if index < n && index - count < 127 {
      AlternatingLiteral(n, count, index + 1);
    }
  }

  lemma AlternatingNext(n: nat, count: nat)
    requires count < n
    ensures var s := Alternating(n);
            && Next(s, count) == (if n - count <= 127 then n else count + 127)
            && Literal(s, count)
  {
    assert RunEnd(Alternating(n), count, count + 1) == count + 1;
    AlternatingLiteral(n, count, count + 1);
  }

  lemma {:induction false} AlternatingSize(n: nat, count: nat)
    requires count <= n
    ensures |EncodeFrom(Alternating(n), count)| == WorstCase(n - count)
    decreases n - count
  {
    if count < n {
      var s := Alternating(n);
      AlternatingNext(n, count);
      AlternatingSize(n, Next(s, count));
      hide Next, Alternating, Literal;
      assert |EncodeFrom(s, count)| == |Chunk(s, count)| + |EncodeFrom(s, Next(s, count))|;
    }
  }

  /** The bound cannot be improved: for every n there is an input that reaches it. */
  lemma WorstCaseReached(n: nat)
    ensures exists s: seq<uint8> :: |s| == n && |Encode(s)| == WorstCase(n)
  {
    AlternatingSize(n, 0);
    assert |Encode(Alternating(n))| == WorstCase(n);
  }

  // ----- The program -----

  /** The scan for three equal bytes. */
  method ScanLiteral(input: seq<uint8>, count: nat, start: nat) returns (index: nat)
    requires count < start <= |input| && start - count <= 127
    ensures index == LiteralEnd(input, count, start)
  {
    index := start;
    while index < |input| && index - count < 127
      invariant count < index <= |input| && index - count <= 127
      invariant LiteralEnd(input, count, start) == LiteralEnd(input, count, index)
    {
      if input[index] == input[index - 1] && index > 1 && input[index] == input[index - 2] {
        index := index - 2;
        break;
      }
      index := index + 1;
    }
  }

  /** The scan for bytes identical to the first one, and for a literal run if there are none. */
  method FindRun(input: seq<uint8>, count: nat) returns (index: nat, literal: bool)
    requires count < |input|
    ensures index == Next(input, count) && literal == Literal(input, count)
  {
    index := count;
    var first := input[index];
    index := index + 1;
    while index < |input| && index - count < 127 && input[index] == first
      invariant count < index <= |input| && index - count <= 127
      invariant RunEnd(input, count, count + 1) == RunEnd(input, count, index)
    {
      index := index + 1;
    }
    literal := index - count == 1;
    if literal {
      index := ScanLiteral(input, count, index);
    }
  }

  /** Writes `count` copies of a byte. */
  method PutRun(output: array<uint8>, out: nat, count: nat, value: uint8) returns (out': nat)
    requires out + count <= output.Length
    modifies output
    ensures out' == out + count
    ensures output[..out'] == old(output[..out]) + Repeat(count, value)
    ensures forall k :: out' <= k < output.Length ==> output[k] == old(output[k])
  {
    var left: nat := count;
    out' := out;
    while left > 0
      invariant 0 <= left <= count && out' == out + (count - left)
      invariant output[..out'] == old(output[..out]) + Repeat(count - left, value)
      invariant forall k :: out' <= k < output.Length ==> output[k] == old(output[k])
    {
      left := left - 1;
      output[out'] := value;
      out' := out' + 1;
    }
  }

  /** Writes the bytes of a literal run. */
  method PutCopy(output: array<uint8>, out: nat, run: seq<uint8>) returns (out': nat)
    requires out + |run| <= output.Length
    modifies output
    ensures out' == out + |run|
    ensures output[..out'] == old(output[..out]) + run
    ensures forall k :: out' <= k < output.Length ==> output[k] == old(output[k])
  {
    var i := 0;
    out' := out;
    while i < |run|
      invariant 0 <= i <= |run| && out' == out + i
      invariant output[..out'] == old(output[..out]) + run[..i]
      invariant forall k :: out' <= k < output.Length ==> output[k] == old(output[k])
    {
      output[out'] := run[i];
      out', i := out' + 1, i + 1;
    }
  }

  /** Writes a literal run, with its header. */
  method PutLiteral(output: array<uint8>, out: nat, input: seq<uint8>, count: nat, index: nat) returns (out': nat)
    requires count < index <= |input| && index - count <= 127
    requires out + 1 + (index - count) <= output.Length
    modifies output
    ensures out' == out + 1 + (index - count)
    ensures output[..out'] == old(output[..out]) + ([256 - (index - count)] + input[count..index])
    ensures forall k :: out' <= k < output.Length ==> output[k] == old(output[k])
  {
    ghost var done := output[..out];
    output[out] := (count - index) % 256;
    assert output[..out + 1] == done + [256 - (index - count)];
    out' := PutCopy(output, out + 1, input[count..index]);
  }

  /** Writes one run, with its header. */
  method PutChunk(output: array<uint8>, out: nat, input: seq<uint8>, count: nat, index: nat, literal: bool)
    returns (out': nat)
    requires count < index <= |input| && index == Next(input, count) && literal == Literal(input, count)
    requires out + |Chunk(input, count)| <= output.Length
    modifies output
    ensures out' == out + |Chunk(input, count)|
    ensures output[..out'] == old(output[..out]) + Chunk(input, count)
    ensures forall k :: out' <= k < output.Length ==> output[k] == old(output[k])
  {
    hide Next, Literal;
    if literal {
      out' := PutLiteral(output, out, input, count, index);
    } else {
      output[out], output[out + 1] := index - count, input[count];
      out' := out + 2;
    }
  }

  lemma EncodeStep(done: seq<uint8>, s: seq<uint8>, count: nat)
    requires count < |s| && count < Next(s, count)
    ensures done + EncodeFrom(s, count) == done + Chunk(s, count) + EncodeFrom(s, Next(s, count))
  {
    hide Chunk, Next;
    var c, e := Chunk(s, count), EncodeFrom(s, Next(s, count));
    assert done + (c + e) == done + c + e;
  }

  lemma EncodeStart(s: seq<uint8>)
    ensures [] + EncodeFrom(s, 0) == Encode(s)
  {
  }

  lemma EncodeEnd(s: seq<uint8>)
    ensures EncodeFrom(s, |s|) == [0]
  {
  }

  /** `rle`, into a buffer with room for the encoding. */
  method Rle(output: array<uint8>, input: seq<uint8>) returns (size: nat)
    requires |Encode(input)| <= output.Length
    modifies output
    ensures size == |Encode(input)|
    ensures output[..size] == Encode(input)
    ensures forall k :: size <= k < output.Length ==> output[k] == old(output[k])
  {
    hide Chunk, Next, Literal, EncodeFrom, Encode;
    var len := |input|;
    var out: nat, count: nat := 0, 0;
    EncodeStart(input);
    while count < len
      invariant count <= len && out <= output.Length
      invariant output[..out] + EncodeFrom(input, count) == Encode(input)
      invariant forall k :: out <= k < output.Length ==> output[k] == old(output[k])
      decreases len - count
    {
      Progress(input, count);
      EncodeStep(output[..out], input, count);
      var index, literal := FindRun(input, count);
      out := PutChunk(output, out, input, count, index, literal);
      count := index;
    }
    EncodeEnd(input);
    output[out] := 0;
    size := out + 1;
  }

  lemma DecodeStart(input: seq<uint8>)
    ensures Decode(input) == Prefixed([], 0, Decode(input[0..]))
  {
    hide Decode;
    assert input[0..] == input;
    if Decode(input).Done? {
      assert [] + Decode(input).output == Decode(input).output;
    }
  }

  /** The first header of an input that reaches an end mark, and what follows it. */
  lemma DecodeFirst(t: seq<uint8>)
    requires Decode(t).Done?
    ensures t != []
    ensures var count := Signed(t[0]);
            && (count > 0 ==> |t| >= 2 && Decode(t) == Prefixed(Repeat(count, t[1]), 2, Decode(t[2..])))
            && (count < 0 ==> |t| >= 1 - count
                              && Decode(t) == Prefixed(t[1..1 - count], 1 - count, Decode(t[1 - count..])))
            && (count == 0 ==> Decode(t) == Done([], 1))
  {
    hide Prefixed;
  }

  lemma PrefixedFits(a: seq<uint8>, n: nat, d: Decoded)
    requires Prefixed(a, n, d).Done?
    ensures d.Done? && |a| <= |Prefixed(a, n, d).output|
  {
  }

  /** What one round of the decoder's loop finds when an end mark follows: it stays inside its input, and
      what it appends fits before what is still to come. */
  lemma DecodeStep(input: seq<uint8>, done: seq<uint8>, pos: nat)
    requires pos <= |input| && Decode(input).Done?
    requires Decode(input) == Prefixed(done, pos, Decode(input[pos..]))
    ensures pos < |input|
    ensures var count := Signed(input[pos]);
            && (count > 0 ==>
              && pos + 2 <= |input| && |done| + count <= |Decode(input).output|
              && Decode(input) == Prefixed(done + Repeat(count, input[pos + 1]), pos + 2, Decode(input[pos + 2..])))
            && (count < 0 ==>
              && pos + 1 - count <= |input| && |done| - count <= |Decode(input).output|
              && Decode(input) == Prefixed(done + input[pos + 1..pos + 1 - count], pos + 1 - count,
                                           Decode(input[pos + 1 - count..])))
            && (count == 0 ==> Decode(input).output == done)
  {
    hide Decode, Signed;
    var t := input[pos..];
    PrefixedFits(done, pos, Decode(t));
    DecodeFirst(t);
    var count := Signed(t[0]);
    if count > 0 {
      assert t[2..] == input[pos + 2..];
      DecodeMore(input, done, pos, Repeat(count, t[1]), 2);
    } else if count < 0 {
      var n := 1 - count;
      assert t[n..] == input[pos + n..] && t[1..n] == input[pos + 1..pos + n];
      DecodeMore(input, done, pos, input[pos + 1..pos + n], n);
    }
  }

  lemma DecodeMore(input: seq<uint8>, done: seq<uint8>, pos: nat, run: seq<uint8>, n: nat)
    requires pos + n <= |input| && Decode(input).Done?
    requires Decode(input) == Prefixed(done, pos, Prefixed(run, n, Decode(input[pos + n..])))
    ensures Decode(input) == Prefixed(done + run, pos + n, Decode(input[pos + n..]))
    ensures |done| + |run| <= |Decode(input).output|
  {
    hide Decode, Prefixed;
    var d := Decode(input[pos + n..]);
    PrefixedTwice(done, pos, run, n, d);
    PrefixedFits(done + run, pos + n, d);
  }

  /** `unrle`, on an input that reaches an end mark, into a buffer with room for what it decodes to. */
  method Unrle(output: array<uint8>, input: seq<uint8>) returns (size: nat)
    requires Decode(input).Done? && |Decode(input).output| <= output.Length
    modifies output
    ensures size == |Decode(input).output|
    ensures output[..size] == Decode(input).output
    ensures forall k :: size <= k < output.Length ==> output[k] == old(output[k])
  {
    hide Decode, Prefixed, Signed;
    var out: nat, pos: nat := 0, 0;
    DecodeStart(input);
    while true
      invariant out <= output.Length && pos <= |input|
      invariant Decode(input) == Prefixed(output[..out], pos, Decode(input[pos..]))
      invariant forall k :: out <= k < output.Length ==> output[k] == old(output[k])
      decreases |input| - pos
    {
      DecodeStep(input, output[..out], pos);
      var count := Signed(input[pos]);
      pos := pos + 1;
      if count > 0 {
        var value := input[pos];
        pos := pos + 1;
        out := PutRun(output, out, count, value);
      } else if count < 0 {
        out := PutCopy(output, out, input[pos..pos - count]);
        pos := pos - count;
      } else {
        break;
      }
    }
    size := out;
  }
}
