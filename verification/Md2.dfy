/** The MD2 message digest in one pass (bertos/algo/md2.c), against the two passes of RFC 1319.

    The substitution `perm` is a parameter: the program is built with either of two, and nothing here depends
    on which. */
module Md2 {

  import opened CTypes

  type Perm = byte -> byte

  const BLOCK_LEN := 16
  const NUM_COMPUTE_ROUNDS := 18
  const COMPUTE_ARRAY_LEN := 48

  function Xor8(a: byte, b: byte): byte { a ^ b }

  function Add8(a: byte, i: nat): byte
    requires i < 256
  {
    a + i as byte
  }

  lemma XorTwice(a: byte, b: byte)
    ensures Xor8(Xor8(a, b), b) == a
  {}

  function Zeros(n: nat): (z: seq<byte>)
    ensures |z| == n && forall i :: 0 <= i < n ==> z[i] == 0
  {
    seq(n, _ => 0)
  }

  function XorBlocks(a: seq<byte>, b: seq<byte>): (c: seq<byte>)
    requires |a| == |b|
    ensures |c| == |a| && forall i :: 0 <= i < |a| ==> c[i] == Xor8(a[i], b[i])
  {
    seq(|a|, i requires 0 <= i < |a| => Xor8(a[i], b[i]))
  }

  // ----- The mixing rounds and their inverse -----

  /** One pass over the array: every byte is XORed with the substitute of the new byte before it. */
  function Pass(perm: Perm, x: seq<byte>, t: byte): (y: seq<byte>)
    ensures |y| == |x|
  {
    if x == [] then []
    else
      var y0 := Xor8(x[0], perm(t));
      [y0] + Pass(perm, x[1..], y0)
  }

  function Unpass(perm: Perm, y: seq<byte>, t: byte): (x: seq<byte>)
    ensures |x| == |y|
  {
    if y == [] then [] else [Xor8(y[0], perm(t))] + Unpass(perm, y[1..], y[0])
  }

  lemma {:induction false} UnpassPass(perm: Perm, x: seq<byte>, t: byte)
    ensures Unpass(perm, Pass(perm, x, t), t) == x
  {
    hide Xor8;
    if x != [] {
      var y0 := Xor8(x[0], perm(t));
      XorTwice(x[0], perm(t));
      UnpassPass(perm, x[1..], y0);
      assert Pass(perm, x, t)[1..] == Pass(perm, x[1..], y0);
    }
  }

  lemma {:induction false} PassUnpass(perm: Perm, y: seq<byte>, t: byte)
    ensures Pass(perm, Unpass(perm, y, t), t) == y
  {
    hide Xor8;
    if y != [] {
      XorTwice(y[0], perm(t));
      PassUnpass(perm, y[1..], y[0]);
      assert Unpass(perm, y, t)[1..] == Unpass(perm, y[1..], y[0]);
    }
  }

  /** The byte before position j, or t at the start. */
  function Before(y: seq<byte>, j: nat, t: byte): byte
    requires j <= |y|
  {
    if j == 0 then t else y[j - 1]
  }

  lemma {:induction false} PassAt(perm: Perm, x: seq<byte>, t: byte, j: nat)
    requires j < |x|
    ensures Pass(perm, x, t)[j] == Xor8(x[j], perm(Before(Pass(perm, x, t), j, t)))
  {
    hide Xor8;
    if j > 0 {
      PassAt(perm, x[1..], Xor8(x[0], perm(t)), j - 1);
    }
  }

  lemma {:induction false} UnpassAt(perm: Perm, y: seq<byte>, t: byte, j: nat)
    requires j < |y|
    ensures Unpass(perm, y, t)[j] == Xor8(y[j], perm(Before(y, j, t)))
  {
    hide Xor8;
    if j > 0 {
      UnpassAt(perm, y[1..], y[0], j - 1);
    }
  }

  /** The value of t on entry to round i, when the array then ends in `last`. */
  function EntryValue(i: nat, last: byte): byte
    requires i <= 256
  {
    if i == 0 then 0 else Add8(last, i - 1)
  }

  /** The array after n rounds. */
  function Mix(perm: Perm, x: seq<byte>, n: nat): (y: seq<byte>)
    requires |x| >= 2 && n <= 256
    ensures |y| == |x|
  {
    if n == 0 then x
    else
      var y := Mix(perm, x, n - 1);
      Pass(perm, y, EntryValue(n - 1, y[|y| - 1]))
  }

  /** What one more round does, for any substitution: every byte is XORed with the substitute of the new byte
      before it; the first byte with the substitute of 0 in the first round, and later of the old last byte plus
      the number of the round before. */
  lemma RoundLaw(perm: Perm, x: seq<byte>, n: nat, j: nat)
    requires |x| >= 2 && n < 256 && j < |x|
    ensures Mix(perm, x, 0) == x
    ensures j > 0 ==> Mix(perm, x, n + 1)[j] == Mix(perm, x, n)[j] ^ perm(Mix(perm, x, n + 1)[j - 1])
    ensures Mix(perm, x, 1)[0] == x[0] ^ perm(0)
    ensures n > 0 ==>
      Mix(perm, x, n + 1)[0] == Mix(perm, x, n)[0] ^ perm(Mix(perm, x, n)[|x| - 1] + (n - 1) as byte)
  {
    NoRounds(perm, x);
    hide *;
    if j > 0 {
      InsideRound(perm, x, n, j);
    }
    FirstRound(perm, x);
    if n > 0 {
      LaterRound(perm, x, n);
    }
  }

  lemma NoRounds(perm: Perm, x: seq<byte>)
    requires |x| >= 2
    ensures Mix(perm, x, 0) == x
  {}

  lemma InsideRound(perm: Perm, x: seq<byte>, n: nat, j: nat)
    requires |x| >= 2 && n < 256 && 0 < j < |x|
    ensures Mix(perm, x, n + 1)[j] == Mix(perm, x, n)[j] ^ perm(Mix(perm, x, n + 1)[j - 1])
  {
    RoundPart(perm, x, n, j);
    hide *;
    XorIs(Mix(perm, x, n)[j], perm(Mix(perm, x, n + 1)[j - 1]), Mix(perm, x, n + 1)[j]);
  }

  lemma FirstRound(perm: Perm, x: seq<byte>)
    requires |x| >= 2
    ensures Mix(perm, x, 1)[0] == x[0] ^ perm(0)
  {
    RoundPart(perm, x, 0, 0);
    hide Xor8, Mix;
    XorIs(x[0], perm(0), Mix(perm, x, 1)[0]);
  }

  lemma LaterRound(perm: Perm, x: seq<byte>, n: nat)
    requires |x| >= 2 && 0 < n < 256
    ensures Mix(perm, x, n + 1)[0] == Mix(perm, x, n)[0] ^ perm(Mix(perm, x, n)[|x| - 1] + (n - 1) as byte)
  {
    RoundPart(perm, x, n, 0);
    hide Xor8, Add8, Mix;
    var last := Mix(perm, x, n)[|x| - 1];
    AddIs(last, n - 1, Add8(last, n - 1));
    XorIs(Mix(perm, x, n)[0], perm(Mix(perm, x, n)[|x| - 1] + (n - 1) as byte), Mix(perm, x, n + 1)[0]);
  }

  lemma RoundPart(perm: Perm, x: seq<byte>, n: nat, j: nat)
    requires |x| >= 2 && n < 256 && j < |x|
    ensures Mix(perm, x, 0) == x
    ensures var y, z := Mix(perm, x, n), Mix(perm, x, n + 1);
            z[j] == Xor8(y[j], perm(if j > 0 then z[j - 1] else EntryValue(n, y[|x| - 1])))
  {
    hide Xor8, EntryValue, Pass;
    var y := Mix(perm, x, n);
    PassAt(perm, y, EntryValue(n, y[|x| - 1]), j);
  }

  lemma XorIs(a: byte, b: byte, c: byte)
    requires c == Xor8(a, b)
    ensures c == a ^ b
  {}

  lemma AddIs(a: byte, i: nat, c: byte)
    requires i < 256 && c == Add8(a, i)
    ensures c == a + i as byte
  {}

  /** Undo n rounds. The last byte before a round can be read off the result of the round alone. */
  function Unmix(perm: Perm, y: seq<byte>, n: nat): (x: seq<byte>)
    requires |y| >= 2 && n <= 256
    ensures |x| == |y|
    decreases n
  {
    if n == 0 then y
    else
      var last := Xor8(y[|y| - 1], perm(y[|y| - 2]));
      Unmix(perm, Unpass(perm, y, EntryValue(n - 1, last)), n - 1)
  }

  lemma {:induction false} UnmixMix(perm: Perm, x: seq<byte>, n: nat)
    requires |x| >= 2 && n <= 256
    ensures Unmix(perm, Mix(perm, x, n), n) == x
  {
    hide Xor8, Add8, Pass, Unpass;
    if n > 0 {
      var w := Mix(perm, x, n - 1);
      var k := |w| - 1;
      var t := EntryValue(n - 1, w[k]);
      var y := Pass(perm, w, t);
      UnpassPass(perm, w, t);
      UnpassAt(perm, y, t, k);
      UnmixMix(perm, x, n - 1);
    }
  }

  lemma {:induction false} MixUnmix(perm: Perm, y: seq<byte>, n: nat)
    requires |y| >= 2 && n <= 256
    ensures Mix(perm, Unmix(perm, y, n), n) == y
    decreases n
  {
    hide Xor8, Add8, Pass, Unpass;
    if n > 0 {
      var k := |y| - 1;
      var t := EntryValue(n - 1, Xor8(y[k], perm(y[k - 1])));
      var w := Unpass(perm, y, t);
      MixUnmix(perm, w, n - 1);
      UnpassAt(perm, y, t, k);
      PassUnpass(perm, y, t);
    }
  }

  /** Mixing is a bijection on arrays, for any substitution and any number of rounds. */
  lemma MixBijective(perm: Perm, a: seq<byte>, b: seq<byte>, n: nat)
    requires |a| == |b| >= 2 && n <= 256
    ensures Mix(perm, a, n) == Mix(perm, b, n) <==> a == b
    ensures Mix(perm, Unmix(perm, a, n), n) == a
  {
    UnmixMix(perm, a, n);
    UnmixMix(perm, b, n);
    MixUnmix(perm, a, n);
  }

  // ----- The built-in substitution -----

  /** `md2_perm`, the substitution of a build without the table of RFC 1319. */
  function BuiltInPerm(i: byte): byte {
    var a := i * 5;
    var b := (a >> 2) | (a << 6);
    var c := b ^ 172;
    c * 3
  }

  function BuiltInInverse(o: byte): byte {
    var c := o * 171;
    var b := c ^ 172;
    var a := (b << 2) | (b >> 6);
    a * 205
  }

  /** It is a permutation of the 256 byte values, with an explicit inverse. */
  lemma BuiltInIsPermutation(i: byte)
    ensures BuiltInInverse(BuiltInPerm(i)) == i && BuiltInPerm(BuiltInInverse(i)) == i
  {
    TimesInverse(i);
  }

  lemma TimesInverse(x: byte)
    ensures x * 5 * 205 == x && x * 205 * 5 == x && x * 3 * 171 == x && x * 171 * 3 == x
  {}

  // ----- MD2 as RFC 1319 defines it -----

  /** Section 3.1: n bytes of value n bring the length to a multiple of 16. */
  function Padding(len: nat): (p: seq<byte>)
    ensures 0 < |p| <= 16 && (len + |p|) % 16 == 0
  {
    var n := 16 - len % 16;
    seq(n, _ => n as byte)
  }

  /** The checksum byte that was written last, or 0 before the first. */
  function LastChecksum(c: seq<byte>, len: nat): byte
    requires |c| == 16
  {
    if len == 0 then 0 else c[(len - 1) % 16]
  }

  /** Section 3.2, with the published erratum: each message byte is XORed into the checksum, in turn. */
  function Checksum(perm: Perm, m: seq<byte>): (c: seq<byte>)
    ensures |c| == 16
  {
    if m == [] then Zeros(16)
    else
      var n := |m| - 1;
      var c := Checksum(perm, m[..n]);
      c[n % 16 := Xor8(c[n % 16], perm(Xor8(m[n], LastChecksum(c, n))))]
  }

  /** Section 3.4: one block. */
  function Compress(perm: Perm, state: seq<byte>, block: seq<byte>): (s: seq<byte>)
    requires |state| == |block| == 16
    ensures |s| == 16
  {
    Mix(perm, state + block + XorBlocks(state, block), 18)[..16]
  }

  /** Section 3.4: all blocks. */
  function Hash(perm: Perm, m: seq<byte>): (s: seq<byte>)
    requires |m| % 16 == 0
    ensures |s| == 16
  {
    if m == [] then Zeros(16)
    else
      var n := |m| - 16;
      Compress(perm, Hash(perm, m[..n]), m[n..])
  }

  /** The message with its padding, and the checksum of both behind it. */
  function Finished(perm: Perm, m: seq<byte>): (f: seq<byte>)
    ensures |f| % 16 == 0 && m <= f
  {
    var padded := m + Padding(|m|);
    padded + Checksum(perm, padded)
  }

  /** Sections 3.1 to 3.5. */
  function Digest(perm: Perm, m: seq<byte>): (d: seq<byte>)
    ensures |d| == 16
  {
    Hash(perm, Finished(perm, m))
  }

  lemma ChecksumSnoc(perm: Perm, m: seq<byte>, b: byte)
    ensures var c, i := Checksum(perm, m), |m| % 16;
            Checksum(perm, m + [b]) == c[i := Xor8(c[i], perm(Xor8(b, LastChecksum(c, |m|))))]
  {
    assert (m + [b])[..|m|] == m;
  }

  lemma HashBlock(perm: Perm, m: seq<byte>, block: seq<byte>)
    requires |m| % 16 == 0 && |block| == 16
    ensures Hash(perm, m + block) == Compress(perm, Hash(perm, m), block)
  {
    assert (m + block)[..|m|] == m && (m + block)[|m|..] == block;
  }

  /** Every byte of the padding is the number of its bytes, so no two messages are padded to the same string. */
  lemma PaddingInjective(m: seq<byte>, m': seq<byte>)
    ensures m + Padding(|m|) == m' + Padding(|m'|) <==> m == m'
  {
    var p, p' := m + Padding(|m|), m' + Padding(|m'|);
    if p == p' {
      LastOfPadding(m);
      LastOfPadding(m');
      assert p[..|m|] == m && p'[..|m'|] == m';
    }
  }

  lemma LastOfPadding(m: seq<byte>)
    ensures var p := m + Padding(|m|); p[|p| - 1] as int == |p| - |m|
  {
  }

  /** Byte k of the checksum while the first i bytes of a block have been added. */
  lemma {:induction false} ChecksumPart(perm: Perm, m: seq<byte>, block: seq<byte>, i: nat, k: nat)
    requires |m| % 16 == 0 && |block| == 16 && i <= 16 && k < 16
    ensures var c, d := Checksum(perm, m), Checksum(perm, m + block[..i]);
            d[k] == if k < i then Xor8(c[k], perm(Xor8(block[k], Before(d, k, c[15])))) else c[k]
    decreases i
  {
    hide Checksum, Xor8, LastChecksum;
    if i == 0 {
      assert m + block[..0] == m;
    } else {
      ChecksumPart(perm, m, block, i - 1, k);
      LastBefore(perm, m, block, i - 1);
      var before, b := m + block[..i - 1], block[i - 1];
      assert |before| == |m| + (i - 1) && |before| % 16 == i - 1;
      ChecksumNext(perm, before, b, i - 1);
      assert before + [b] == m + block[..i];
    }
  }

  /** The checksum byte before place i of a new block is the one that was written last. */
  lemma LastBefore(perm: Perm, m: seq<byte>, block: seq<byte>, i: nat)
    requires Whole(m) && |block| == 16 && i < 16
    ensures LastChecksum(Checksum(perm, m + block[..i]), |m| + i) ==
            Before(Checksum(perm, m + block[..i]), i, Checksum(perm, m)[15])
  {
    hide Checksum, Xor8, LastChecksum, Whole;
    if i == 0 {
      assert m + block[..i] == m;
      FirstLast(perm, m);
    } else {
      LastInBlock(Checksum(perm, m + block[..i]), m, i);
    }
  }

  predicate Whole(m: seq<byte>) {
    |m| % 16 == 0
  }

  lemma LastInBlock(c: seq<byte>, m: seq<byte>, i: nat)
    requires |c| == 16 && Whole(m) && 0 < i < 16
    ensures LastChecksum(c, |m| + i) == c[i - 1]
  {
    assert (|m| + i - 1) % 16 == i - 1;
  }

  /** What one more block does to the checksum: every byte is XORed with the substitute of the message byte XORed
      with the new checksum byte before it, or with the old last one in the first place. */
  lemma ChecksumLaw(perm: Perm, m: seq<byte>, block: seq<byte>, j: nat)
    requires |m| % 16 == 0 && |block| == 16 && j < 16
    ensures Checksum(perm, []) == Zeros(16)
    ensures var c, d := Checksum(perm, m), Checksum(perm, m + block);
            d[j] == Xor8(c[j], perm(Xor8(block[j], if j > 0 then d[j - 1] else c[15])))
  {
    NoChecksum(perm);
    hide Checksum, Xor8;
    ChecksumPart(perm, m, block, 16, j);
    assert block[..16] == block;
  }

  lemma NoChecksum(perm: Perm)
    ensures Checksum(perm, []) == Zeros(16)
  {}

  // ----- The input buffer -----

  /** The buffer after the bytes of m have been stored round and round, starting from zeros. */
  function Stored(m: seq<byte>): (r: seq<byte>)
    ensures |r| == 16
  {
    if m == [] then Zeros(16) else Stored(m[..|m| - 1])[(|m| - 1) % 16 := m[|m| - 1]]
  }

  lemma StoredSnoc(m: seq<byte>, b: byte)
    ensures Stored(m + [b]) == Stored(m)[|m| % 16 := b]
  {
    assert (m + [b])[..|m|] == m;
  }

  /** A buffer with s written over it from position i on. */
  function Overlay(r: seq<byte>, i: nat, s: seq<byte>): (o: seq<byte>)
    requires i + |s| <= |r|
    ensures |o| == |r|
  {
    seq(|r|, k requires 0 <= k < |r| => if i <= k < i + |s| then s[k - i] else r[k])
  }

  lemma OverlayNext(r: seq<byte>, i: nat, s: seq<byte>, b: byte)
    requires i + |s| < |r|
    ensures Overlay(r, i, s)[i + |s| := b] == Overlay(r, i, s + [b])
  {}

  lemma OverlayNothing(r: seq<byte>, i: nat)
    requires i <= |r|
    ensures Overlay(r, i, []) == r
  {}

  lemma StoreOne(m: seq<byte>, b: byte, r: seq<byte>, i: nat, s: seq<byte>)
    requires i + |s| < |r| && Stored(m) == Overlay(r, i, s) && |m| % 16 == i + |s|
    ensures Stored(m + [b]) == Overlay(r, i, s + [b])
  {
    hide Stored, Overlay;
    StoredSnoc(m, b);
    OverlayNext(r, i, s, b);
  }

  /** Storing bytes that do not run over the end of the buffer changes just those places. */
  lemma {:induction false} StoredCopy(m: seq<byte>, s: seq<byte>)
    requires |m| % 16 + |s| <= 16
    ensures Stored(m + s) == Overlay(Stored(m), |m| % 16, s)
    decreases |s|
  {
    hide Stored, Overlay;
    if s == [] {
      assert m + s == m;
      OverlayNothing(Stored(m), |m| % 16);
    } else {
      var s0, b := s[..|s| - 1], s[|s| - 1];
      StoredCopy(m, s0);
      SameBlock(|m|, |s0|);
      StoreOne(m + s0, b, Stored(m), |m| % 16, s0);
      assert s0 + [b] == s && m + s0 + [b] == m + s;
    }
  }

  lemma SameBlock(m: nat, n: nat)
    requires m % 16 + n < 16
    ensures (m + n) % 16 == m % 16 + n
  {}

  /** A full buffer holds the last sixteen bytes. */
  lemma StoredFull(m: seq<byte>, s: seq<byte>)
    requires |m| % 16 == 0 && |s| == 16
    ensures Stored(m + s) == s
  {
    StoredCopy(m, s);
  }

  /** The 18 rounds, in place. */
  method MixRounds(perm: Perm, a: array<byte>)
    requires a.Length == COMPUTE_ARRAY_LEN
    modifies a
    ensures a[..] == Mix(perm, old(a[..]), NUM_COMPUTE_ROUNDS)
  {
    hide Xor8, Add8, Pass;
    var t: byte := 0;
    for i := 0 to NUM_COMPUTE_ROUNDS
      invariant a[..] == Mix(perm, old(a[..]), i)
      invariant t == EntryValue(i, a[a.Length - 1])
    {
      ghost var x, t0 := a[..], t;
      ghost var y := Pass(perm, x, t0);
      for j := 0 to COMPUTE_ARRAY_LEN
        invariant forall k :: 0 <= k < j ==> a[k] == y[k]
        invariant forall k :: j <= k < COMPUTE_ARRAY_LEN ==> a[k] == x[k]
        invariant t == Before(y, j, t0)
      {
        PassAt(perm, x, t0, j);
        a[j] := Xor8(a[j], perm(t));
        t := a[j];
      }
      assert a[..] == y;
      t := Add8(t, i);
    }
  }

  /** The three parts of the compute array: state, block, and their XOR. */
  method FillArray(a: array<byte>, state: array<byte>, block: array<byte>)
    requires state.Length == block.Length == BLOCK_LEN && a.Length == COMPUTE_ARRAY_LEN
    requires a != state && a != block
    modifies a
    ensures a[..] == state[..] + block[..] + XorBlocks(state[..], block[..])
  {
    hide Xor8;
    forall k | 0 <= k < BLOCK_LEN {
      a[k] := state[k];
    }
    forall k | 0 <= k < BLOCK_LEN {
      a[BLOCK_LEN + k] := block[k];
    }
    for i := 0 to BLOCK_LEN
      invariant a[..16] == state[..] && a[16..32] == block[..]
      invariant forall k :: 32 <= k < 32 + i ==> a[k] == Xor8(state[k - 32], block[k - 32])
    {
      a[i + BLOCK_LEN * 2] := Xor8(state[i], block[i]);
    }
    assert a[32..] == XorBlocks(state[..], block[..]);
    assert a[..] == a[..16] + a[16..32] + a[32..];
  }

  /** `md2_compute`: one block into the state and the checksum. */
  method Compute(perm: Perm, state: array<byte>, checksum: array<byte>, block: array<byte>, ghost m: seq<byte>)
    requires state.Length == checksum.Length == block.Length == BLOCK_LEN
    requires state != checksum && state != block && checksum != block
    requires |m| % 16 == 0 && checksum[..] == Checksum(perm, m)
    modifies state, checksum
    ensures state[..] == Compress(perm, old(state[..]), block[..])
    ensures checksum[..] == Checksum(perm, m + block[..])
  {
    hide Xor8, Mix, Checksum, XorBlocks;
    ghost var s0, b0 := state[..], block[..];
    var computeArray := new byte[COMPUTE_ARRAY_LEN];
    FillArray(computeArray, state, block);
    assert computeArray[..] == s0 + b0 + XorBlocks(s0, b0);
    MixRounds(perm, computeArray);
    ghost var mixed := computeArray[..];
    assert checksum[..] == old(checksum[..]) && block[..] == b0;
    UpdateChecksum(perm, checksum, block, m);
    assert computeArray[..] == mixed && block[..] == b0;
    ghost var c1 := checksum[..];
    forall k | 0 <= k < BLOCK_LEN {
      state[k] := computeArray[k];
    }
    assert state[..] == mixed[..16] && checksum[..] == c1 && block[..] == b0;
  }

  /** The checksum loop of `md2_compute`. */
  method UpdateChecksum(perm: Perm, checksum: array<byte>, block: array<byte>, ghost m: seq<byte>)
    requires checksum.Length == block.Length == BLOCK_LEN && checksum != block
    requires |m| % 16 == 0 && checksum[..] == Checksum(perm, m)
    modifies checksum
    ensures checksum[..] == Checksum(perm, m + block[..])
  {
    hide Xor8, Checksum, LastChecksum;
    ghost var b := block[..];
    var t := checksum[BLOCK_LEN - 1];
    FirstLast(perm, m);
    assert m + b[..0] == m;
    for i := 0 to BLOCK_LEN
      invariant block[..] == b
      invariant checksum[..] == Checksum(perm, m + b[..i])
      invariant t == LastChecksum(Checksum(perm, m + b[..i]), |m| + i)
    {
      assert m + b[..i + 1] == (m + b[..i]) + [b[i]];
      ChecksumNext(perm, m + b[..i], b[i], i);
      checksum[i] := Xor8(checksum[i], perm(Xor8(block[i], t)));
      t := checksum[i];
    }
    assert b[..16] == b;
  }

  lemma ChecksumNext(perm: Perm, m: seq<byte>, b: byte, i: nat)
    requires |m| % 16 == i
    ensures var c := Checksum(perm, m);
            var x := Xor8(c[i], perm(Xor8(b, LastChecksum(c, |m|))));
            Checksum(perm, m + [b]) == c[i := x] && LastChecksum(Checksum(perm, m + [b]), |m| + 1) == x
  {
    hide Xor8;
    ChecksumSnoc(perm, m, b);
  }

  /** The program reads t from the checksum itself, also before the first block, where it is still 0. */
  lemma FirstLast(perm: Perm, m: seq<byte>)
    requires Whole(m)
    ensures Checksum(perm, m)[15] == LastChecksum(Checksum(perm, m), |m|)
  {
    NoChecksum(perm);
    hide Checksum, LastChecksum;
    LastOf(Checksum(perm, m), |m|);
  }

  lemma LastOf(c: seq<byte>, m: nat)
    requires |c| == 16 && m % 16 == 0 && (m == 0 ==> c == Zeros(16))
    ensures c[15] == LastChecksum(c, m)
  {
    assert m == 0 || (m - 1) % 16 == 15;
  }

  lemma Extend(m: seq<byte>, s: seq<byte>, from: nat, n: nat)
    requires from + n <= |s|
    ensures m + s[..from] + s[from..from + n] == m + s[..from + n]
  {}

  // ----- The context -----

  class Md2Context {
    const perm: Perm
    const buffer: array<byte>
    const state: array<byte>
    const checksum: array<byte>
    var counter: nat

    /** Every byte given since initialization, padding and checksum included. */
    ghost var consumed: seq<byte>

    /** Every field is a function of the bytes consumed, however they were split into updates. */
    ghost predicate Valid()
      reads this, buffer, state, checksum
    {
      Filled(consumed, |consumed| / 16 * 16) && counter < BLOCK_LEN
    }

    /** `md2_init`. */
    constructor (perm: Perm)
      ensures Valid() && consumed == [] && this.perm == perm
      ensures fresh(buffer) && fresh(state) && fresh(checksum)
    {
      this.perm := perm;
      buffer := new byte[BLOCK_LEN](_ => 0);
      state := new byte[BLOCK_LEN](_ => 0);
      checksum := new byte[BLOCK_LEN](_ => 0);
      counter := 0;
      consumed := [];
      new;
      assert buffer[..] == Zeros(16) && state[..] == Zeros(16) && checksum[..] == Zeros(16);
    }

    /** The context while some bytes of the next block, at most a whole block, are in the buffer. */
    ghost predicate Filled(m: seq<byte>, n: nat)
      reads this, buffer, state, checksum
    {
      && buffer.Length == state.Length == checksum.Length == BLOCK_LEN
      && buffer != state && buffer != checksum && state != checksum
      && n <= |m| && n % 16 == 0 && counter == |m| - n <= 16
      && buffer[..] == Stored(m)
      && state[..] == Hash(perm, m[..n])
      && checksum[..] == Checksum(perm, m[..n])
    }

    /** Copy the next bytes of the input behind those already in the buffer. */
    method CopyIn(input: seq<byte>, from: nat, cpyLen: nat, ghost m: seq<byte>)
      requires from + cpyLen <= |input|
      requires Filled(m, |m| / 16 * 16) && counter + cpyLen <= 16
      modifies this`counter, buffer
      ensures Filled(m + input[from..from + cpyLen], |m| / 16 * 16)
    {
      hide Stored, Hash, Checksum;
      ghost var chunk := input[from..from + cpyLen];
      ghost var n := |m| / 16 * 16;
      StoredCopy(m, chunk);
      assert (m + chunk)[..n] == m[..n];
      forall k | 0 <= k < cpyLen {
        buffer[counter + k] := input[from + k];
      }
      assert buffer[..] == Overlay(old(buffer[..]), counter, chunk);
      counter := counter + cpyLen;
    }

    /** Process a full buffer. */
    method Flush(ghost m: seq<byte>)
      requires |m| >= 16 && Filled(m, |m| - 16)
      modifies this`counter, buffer, state, checksum
      ensures Filled(m, |m|)
    {
      hide Stored, Hash, Checksum, Compress;
      ghost var n := |m| - 16;
      assert m == m[..n] + m[n..] && m[..|m|] == m;
      StoredFull(m[..n], m[n..]);
      HashBlock(perm, m[..n], m[n..]);
      Compute(perm, state, checksum, buffer, m[..n]);
      counter := 0;
    }

    /** One round of the loop of `md2_update`: as much input as the buffer has room for. */
    method Absorb(input: seq<byte>, from: nat) returns (cpyLen: nat)
      requires Valid() && from < |input|
      modifies this`counter, this`consumed, buffer, state, checksum
      ensures 0 < cpyLen <= |input| - from
      ensures Valid() && consumed == old(consumed) + input[from..from + cpyLen]
    {
      hide Stored, Hash, Checksum;
      var room := BLOCK_LEN - counter;
      cpyLen := if |input| - from < room then |input| - from else room;
      CopyIn(input, from, cpyLen, consumed);
      consumed := consumed + input[from..from + cpyLen];
      if counter >= BLOCK_LEN {
        Flush(consumed);
      }
    }

    /** `md2_update`. */
    method Update(input: seq<byte>)
      requires Valid()
      modifies this`counter, this`consumed, buffer, state, checksum
      ensures Valid() && consumed == old(consumed) + input
    {
      hide Filled, Stored, Hash, Checksum;
      ghost var m := consumed;
      var blockIn := 0;
      assert m + input[..0] == m;
      while blockIn < |input|
        invariant blockIn <= |input| && consumed == m + input[..blockIn]
        invariant Valid()
      {
        var cpyLen := Absorb(input, blockIn);
        Extend(m, input, blockIn, cpyLen);
        blockIn := blockIn + cpyLen;
      }
      assert input[..blockIn] == input;
    }

    lemma AtPosition()
      requires Valid()
      ensures counter == |consumed| % 16
    {}

    lemma AtBlock()
      requires Valid() && |consumed| % 16 == 0
      ensures counter == 0 && state[..] == Hash(perm, consumed) && checksum[..] == Checksum(perm, consumed)
    {
      hide Stored, Hash, Checksum;
      assert consumed[..|consumed|] == consumed;
    }

    /** `md2_end`. The digest is returned in place, in the state. The last update takes the checksum as its input
        and changes it; a copy taken before is the same, because the counter is 0 by then, and so all sixteen
        bytes are in the buffer before the block is processed. */
    method End() returns (digest: array<byte>)
      requires Valid()
      modifies this`counter, this`consumed, buffer, state, checksum
      ensures Valid() && counter == 0
      ensures digest == state && digest[..] == Digest(perm, old(consumed))
      ensures consumed == Finished(perm, old(consumed))
    {
      hide Filled, Stored, Hash, Checksum;
      ghost var m := consumed;
      AtPosition();
      var n := BLOCK_LEN - counter;
      var buf := new byte[BLOCK_LEN];
      Pad(buf, n);
      assert buf[..n] == Padding(|m|);
      Update(buf[..n]);
      AtBlock();
      Update(checksum[..]);
      AtBlock();
      digest := state;
    }
  }

  /** However a message is split into updates, the whole context is the same afterwards. */
  lemma SplitInvariant(a: Md2Context, b: Md2Context)
    requires a.Valid() && b.Valid() && a.perm == b.perm && a.consumed == b.consumed
    ensures a.counter == b.counter < BLOCK_LEN
    ensures a.buffer[..] == b.buffer[..] && a.state[..] == b.state[..] && a.checksum[..] == b.checksum[..]
  {
    hide Stored, Hash, Checksum;
  }

  /** `md2_pad`. */
  method Pad(block: array<byte>, lenPad: nat)
    requires lenPad <= BLOCK_LEN <= block.Length
    modifies block
    ensures block[..lenPad] == seq(lenPad, _ => lenPad as byte)
    ensures block[lenPad..] == old(block[lenPad..])
  {
    forall k | 0 <= k < lenPad {
      block[k] := lenPad as byte;
    }
  }
}
