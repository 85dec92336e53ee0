/**
 SpookyHash V2 (common/SpookyV2.cpp): the one-shot hash, the streaming hash with its 192-byte
 stash, and the proof that the two agree; and the tile hash of common/Png.hpp built on it.

 A message is a sequence of bytes; words are read from it in little-endian order.
*/
module SpookyHashes {

  import opened Arithmetic
  import opened Pixmaps
  import opened Wrappers
  import opened SpookyMix

  const BLOCK_SIZE: nat := 96
  const BUF_SIZE: nat := 192

  // ----- words in a message -----------------------------------------------------------------

  predicate Odd(n: nat) { n % 2 == 1 }

  function Half(n: nat): nat { n / 2 }

  function BitIf(isSet: bool, bit: bv8): bv8 {
    if isSet then bit else 0
  }

  function EightBits(p0: bool, p1: bool, p2: bool, p3: bool, p4: bool, p5: bool, p6: bool, p7: bool): bv8 {
    BitIf(p0, 1) | BitIf(p1, 2) | BitIf(p2, 4) | BitIf(p3, 8) |
    BitIf(p4, 0x10) | BitIf(p5, 0x20) | BitIf(p6, 0x40) | BitIf(p7, 0x80)
  }

  /** A byte as eight bits: halving it shows them from the lowest to the highest. */
  function Bits(b: byte): bv8 {
    var b1 := Half(b);
    var b2 := Half(b1);
    var b3 := Half(b2);
    var b4 := Half(b3);
    var b5 := Half(b4);
    var b6 := Half(b5);
    EightBits(Odd(b), Odd(b1), Odd(b2), Odd(b3), Odd(b4), Odd(b5), Odd(b6), Odd(Half(b6)))
  }

  function AtPlace(bits: bv8, i: nat): Word
    requires i < 8
  {
    var x := bits as Word;
    if i == 0 then x else if i == 1 then x << 8 else if i == 2 then x << 16 else if i == 3 then x << 24
    else if i == 4 then x << 32 else if i == 5 then x << 40 else if i == 6 then x << 48 else x << 56
  }

  /** The byte as the `i`-th lowest byte of a word. */
  function ByteAt(b: byte, i: nat): Word
    requires i < 8
  {
    AtPlace(Bits(b), i)
  }

  /** Adds the bytes of `s`, read as a little-endian number, to `x`: highest byte first. */
  function AddBytes(x: Word, s: seq<byte>): Word
    requires |s| <= 8
    decreases |s|
  {
    if s == [] then x
    else
      var n := |s| - 1;
      AddBytes(Plus(x, ByteAt(s[n], n)), s[..n])
  }

  /** The 64-bit (32-bit) word at the start of `s`. */
  function Word64(s: seq<byte>): Word
    requires |s| >= 8
  {
    AddBytes(0, s[..8])
  }

  function Word32(s: seq<byte>): Word
    requires |s| >= 4
  {
    AddBytes(0, s[..4])
  }

  /** The `i`-th 64-bit word of `s`. */
  function WordOf(s: seq<byte>, i: nat): Word
    requires 8 * i + 8 <= |s|
  {
    Word64(s[8 * i..8 * i + 8])
  }

  function Block(s: seq<byte>): Words12
    requires |s| == BLOCK_SIZE
  {
    seq(12, i requires 0 <= i < 12 => WordOf(s, i))
  }

  function Zeros(n: nat): (s: seq<byte>)
    ensures |s| == n
  {
    seq(n, i => 0)
  }

  // ----- the one-shot hash ------------------------------------------------------------------

  /** c += first word; d += second word; ShortMix. */
  function ShortPair(h: Words4, s: seq<byte>): Words4
    requires |s| >= 16
  {
    ShortMix(h[2 := Plus(h[2], WordOf(s, 0))][3 := Plus(h[3], WordOf(s, 1))])
  }

  /** A complete set of 32 bytes. */
  function ShortSet(h: Words4, s: seq<byte>): Words4
    requires |s| >= 32
  {
    var m := ShortPair(h, s);
    m[0 := Plus(m[0], WordOf(s, 2))][1 := Plus(m[1], WordOf(s, 3))]
  }

  /** Short: all complete sets. */
  function ShortAbsorb(h: Words4, msg: seq<byte>): Words4
    requires |msg| % 32 == 0
    decreases |msg|
  {
    if |msg| == 0 then h
    else
      var n := |msg| - 32;
      ShortSet(ShortAbsorb(h, msg[..n]), msg[n..])
  }

  /** Short: 16 more bytes, if there are that many. */
  function ShortHalf(h: Words4, rest: seq<byte>): Words4 {
    if |rest| < 16 then h else ShortPair(h, rest)
  }

  /** Short: the last 0 to 15 bytes, padded with zeros to two words, and the length; no bytes at
      all add the constant instead. */
  function ShortTail(h: Words4, tail: seq<byte>, length: nat): Words4
    requires |tail| < 16
  {
    var d := Plus(h[3], LengthWord(length));
    if tail == [] then h[2 := Plus(h[2], SC_CONST)][3 := Plus(d, SC_CONST)]
    else
      var s := tail + Zeros(16 - |tail|);
      h[2 := Plus(h[2], WordOf(s, 0))][3 := Plus(d, WordOf(s, 1))]
  }

  /** The low byte of the length as the top byte of a word. */
  function LengthWord(length: nat): Word {
    ((length % 256) as Word) << 56
  }

  /** The four words that Short ends with; two of them are the hash. */
  function ShortState(msg: seq<byte>, seed1: Word, seed2: Word): Words4 {
    var n := |msg| / 32 * 32;
    var h := ShortHalf(ShortAbsorb([seed1, seed2, SC_CONST, SC_CONST], msg[..n]), msg[n..]);
    var t := |msg| / 16 * 16;
    ShortEnd(ShortTail(h, msg[t..], |msg|))
  }

  function ShortHash(msg: seq<byte>, seed1: Word, seed2: Word): (Word, Word) {
    var e := ShortState(msg, seed1, seed2);
    (e[0], e[1])
  }

  function Seeded(seed1: Word, seed2: Word): Words12 {
    [seed1, seed2, SC_CONST, seed1, seed2, SC_CONST, seed1, seed2, SC_CONST, seed1, seed2, SC_CONST]
  }

  /** Mixes in whole blocks. */
  function Absorb(h: Words12, msg: seq<byte>): Words12
    requires |msg| % BLOCK_SIZE == 0
    decreases |msg|
  {
    if |msg| == 0 then h
    else
      var n := |msg| - BLOCK_SIZE;
      Mix(Absorb(h, msg[..n]), Block(msg[n..]))
  }

  /** The last partial block, zero padded, with its length in the last byte. */
  function LastBlock(tail: seq<byte>): (s: seq<byte>)
    requires |tail| < BLOCK_SIZE
    ensures |s| == BLOCK_SIZE
  {
    tail + Zeros(BLOCK_SIZE - 1 - |tail|) + [|tail|]
  }

  /** The twelve words that a long message ends with. */
  function LongState(msg: seq<byte>, seed1: Word, seed2: Word): Words12 {
    var n := |msg| / BLOCK_SIZE * BLOCK_SIZE;
    End(Block(LastBlock(msg[n..])), Absorb(Seeded(seed1, seed2), msg[..n]))
  }

  function LongHash(msg: seq<byte>, seed1: Word, seed2: Word): (Word, Word) {
    var h := LongState(msg, seed1, seed2);
    (h[0], h[1])
  }

  function Hash128(msg: seq<byte>, seed1: Word, seed2: Word): (Word, Word) {
    if |msg| < BUF_SIZE then ShortHash(msg, seed1, seed2) else LongHash(msg, seed1, seed2)
  }

  // ----- the bytes of the switch ------------------------------------------------------------

  lemma {:induction false} PlusZero(x: Word)
    ensures Plus(x, 0) == x && Plus(0, x) == x
  {
  }

  lemma {:induction false} PlusIs(x: Word, y: Word)
    ensures Plus(x, y) == x + y
  {
  }

  /** Both sides of the law below, as the solver normalizes them. */
  lemma {:induction false} PlusOfSums(x: Word, y: Word, z: Word)
    ensures Plus(x, y + z) == x + y + z && Plus(x + y, z) == x + y + z
  {
  }

  lemma {:induction false} PlusAssociates(x: Word, y: Word, z: Word)
    ensures Plus(x, Plus(y, z)) == Plus(Plus(x, y), z)
  {
    hide Plus;
    PlusIs(x, y);
    PlusIs(y, z);
    PlusOfSums(x, y, z);
  }

  lemma {:induction false} ZeroByte(i: nat)
    requires i < 8
    ensures ByteAt(0, i) == 0
  {
  }

  /** Adding the number that some bytes make up is adding the bytes. */
  lemma {:induction false} AddBytesPlus(x: Word, y: Word, s: seq<byte>)
    requires |s| <= 8
    ensures Plus(x, AddBytes(y, s)) == AddBytes(Plus(x, y), s)
    decreases |s|
  {
    hide Plus, ByteAt;
    if s != [] {
      var n := |s| - 1;
      var b := ByteAt(s[n], n);
      PlusAssociates(x, y, b);
      AddBytesPlus(x, Plus(y, b), s[..n]);
    }
  }

  lemma {:induction false} AddNumber(x: Word, s: seq<byte>)
    requires |s| <= 8
    ensures Plus(x, AddBytes(0, s)) == AddBytes(x, s)
  {
    hide AddBytes;
    AddBytesPlus(x, 0, s);
    PlusZero(x);
  }

  /** Zero bytes on top add nothing. */
  lemma {:induction false} AddBytesPadded(x: Word, s: seq<byte>, n: nat)
    requires |s| + n <= 8
    ensures AddBytes(x, s + Zeros(n)) == AddBytes(x, s)
    decreases n
  {
    hide Plus, ByteAt;
    if n == 0 {
      assert s + Zeros(n) == s;
    } else {
      var t := s + Zeros(n);
      assert t[..|t| - 1] == s + Zeros(n - 1) && t[|t| - 1] == 0;
      ZeroByte(|t| - 1);
      PlusZero(x);
      AddBytesPadded(x, s, n - 1);
    }
  }

  /** The bytes of `p` that word `i` of the padded tail holds. */
  function Part(p: seq<byte>, i: nat): (s: seq<byte>)
    requires |p| < 16 && i < 2
    ensures |s| <= 8
  {
    if |p| <= 8 * i then [] else if |p| < 8 * i + 8 then p[8 * i..] else p[8 * i..8 * i + 8]
  }

  /** What the padded tail adds to the word that starts at byte 8 * i. */
  lemma {:induction false} PaddedWord(x: Word, p: seq<byte>, i: nat)
    requires |p| < 16 && i < 2
    ensures Plus(x, WordOf(p + Zeros(16 - |p|), i)) == AddBytes(x, Part(p, i))
  {
    hide *;
    var s, q := p + Zeros(16 - |p|), Part(p, i);
    WordIs(s, i);
    PartPadded(p, i);
    AddNumber(x, s[8 * i..8 * i + 8]);
    AddBytesPadded(x, q, 8 - |q|);
  }

  lemma {:induction false} WordIs(s: seq<byte>, i: nat)
    requires 8 * i + 8 <= |s|
    ensures WordOf(s, i) == AddBytes(0, s[8 * i..8 * i + 8])
  {
    hide AddBytes;
    assert s[8 * i..8 * i + 8][..8] == s[8 * i..8 * i + 8];
  }

  lemma {:induction false} PartPadded(p: seq<byte>, i: nat)
    requires |p| < 16 && i < 2
    ensures (p + Zeros(16 - |p|))[8 * i..8 * i + 8] == Part(p, i) + Zeros(8 - |Part(p, i)|)
  {
  }

  lemma {:induction false} TopByte(x: Word, s: seq<byte>)
    requires 0 < |s| <= 8
    ensures AddBytes(Plus(x, ByteAt(s[|s| - 1], |s| - 1)), s[..|s| - 1]) == AddBytes(x, s)
  {
  }

  /** The cases 8 to 15 of the source's switch, as far as they change d; they fall through. */
  method AddHighBytes(p: seq<byte>, d0: Word) returns (d: Word)
    requires 8 <= |p| < 16
    ensures d == AddBytes(d0, p[8..])
  {
    hide Plus, ByteAt, AddBytes;
    d := d0;
    var remainder := |p|;
    ghost var q := p[8..];
    if remainder >= 12 {
      if remainder == 15 { TopByte(d, q); d := Plus(d, ByteAt(p[14], 6)); q := q[..6]; }
      if remainder >= 14 { TopByte(d, q); d := Plus(d, ByteAt(p[13], 5)); q := q[..5]; }
      if remainder >= 13 { TopByte(d, q); d := Plus(d, ByteAt(p[12], 4)); q := q[..4]; }
      AddNumber(d, q);
      assert q == p[8..][..4];
      d := Plus(d, Word32(p[8..]));
    } else {
      if remainder == 11 { TopByte(d, q); d := Plus(d, ByteAt(p[10], 2)); q := q[..2]; }
      if remainder >= 10 { TopByte(d, q); d := Plus(d, ByteAt(p[9], 1)); q := q[..1]; }
      if remainder >= 9 { TopByte(d, q); d := Plus(d, ByteAt(p[8], 0)); q := q[..0]; }
      NoBytes(d, q);
    }
  }

  /** The cases 1 to 7 of the switch. */
  method AddLowBytes(p: seq<byte>, c0: Word) returns (c: Word)
    requires 1 <= |p| < 8
    ensures c == AddBytes(c0, p)
  {
    hide Plus, ByteAt, AddBytes;
    c := c0;
    var remainder := |p|;
    ghost var q := p;
    if remainder >= 4 {
      if remainder == 7 { TopByte(c, q); c := Plus(c, ByteAt(p[6], 6)); q := q[..6]; }
      if remainder >= 6 { TopByte(c, q); c := Plus(c, ByteAt(p[5], 5)); q := q[..5]; }
      if remainder >= 5 { TopByte(c, q); c := Plus(c, ByteAt(p[4], 4)); q := q[..4]; }
      AddNumber(c, q);
      assert q == p[..4];
      c := Plus(c, Word32(p));
    } else {
      if remainder == 3 { TopByte(c, q); c := Plus(c, ByteAt(p[2], 2)); q := q[..2]; }
      if remainder >= 2 { TopByte(c, q); c := Plus(c, ByteAt(p[1], 1)); q := q[..1]; }
      TopByte(c, q);
      c := Plus(c, ByteAt(p[0], 0));
      q := q[..0];
      NoBytes(c, q);
    }
  }

  /** The source's switch over the number of remaining bytes. */
  method AddTail(p: seq<byte>, c0: Word, d0: Word) returns (c: Word, d: Word)
    requires |p| < 16
    ensures p == [] ==> c == Plus(c0, SC_CONST) && d == Plus(d0, SC_CONST)
    ensures p != [] ==>
              var s := p + Zeros(16 - |p|);
              c == Plus(c0, WordOf(s, 0)) && d == Plus(d0, WordOf(s, 1))
  {
    hide Plus, AddBytes, WordOf;
    c, d := c0, d0;
    if p == [] {
      c := Plus(c, SC_CONST);
      d := Plus(d, SC_CONST);
      return;
    }
    PaddedWord(c0, p, 0);
    PaddedWord(d0, p, 1);
    if |p| >= 8 {
      d := AddHighBytes(p, d);
      assert Part(p, 0) == p[..8];
      assert Part(p, 1) == p[8..];
      AddNumber(c, p[..8]);
      c := Plus(c, Word64(p));
    } else {
      assert Part(p, 0) == p && Part(p, 1) == [];
      NoBytes(d0, []);
      c := AddLowBytes(p, c);
    }
  }

  lemma {:induction false} NoBytes(x: Word, s: seq<byte>)
    requires s == []
    ensures AddBytes(x, s) == x
  {
  }

  lemma {:induction false} ShortAbsorbStep(h: Words4, msg: seq<byte>, n: nat)
    requires n % 32 == 0 && n + 32 <= |msg|
    ensures ShortAbsorb(h, msg[..n + 32]) == ShortSet(ShortAbsorb(h, msg[..n]), msg[n..])
  {
    hide ShortMix, Plus, Word64;
    var t, s := msg[..n + 32][n..], msg[n..];
    assert msg[..n + 32][..n] == msg[..n];
    assert t == s[..32];
    SameSet(ShortAbsorb(h, msg[..n]), t, s);
  }

  lemma {:induction false} SameSet(g: Words4, t: seq<byte>, s: seq<byte>)
    requires 32 <= |s| && t == s[..32]
    ensures ShortSet(g, t) == ShortSet(g, s)
  {
    hide ShortMix, Plus, Word64;
    assert t[0..8] == s[0..8] && t[8..16] == s[8..16];
    assert t[16..24] == s[16..24] && t[24..32] == s[24..32];
  }

  method ShortPairInPlace(h: array<Word>, s: seq<byte>)
    requires h.Length == 4 && |s| >= 16
    modifies h
    ensures h[..] == ShortPair(old(h[..]), s)
  {
    hide ShortMix, Plus, Word64;
    h[2] := Plus(h[2], WordOf(s, 0));
    h[3] := Plus(h[3], WordOf(s, 1));
    assert h[..] == old(h[..])[2 := Plus(old(h[2]), WordOf(s, 0))][3 := Plus(old(h[3]), WordOf(s, 1))];
    ShortMixInPlace(h);
  }

  /** The body of the loop over complete sets. */
  method ShortSetInPlace(h: array<Word>, s: seq<byte>)
    requires h.Length == 4 && |s| >= 32
    modifies h
    ensures h[..] == ShortSet(old(h[..]), s)
  {
    hide ShortPair, Plus, WordOf;
    ShortPairInPlace(h, s);
    h[0] := Plus(h[0], WordOf(s, 2));
    h[1] := Plus(h[1], WordOf(s, 3));
  }

  /** Whole sets of 32 bytes, and whole halves. */
  lemma {:induction false} Wholes(n: nat, k: nat)
    requires 32 * k <= n < 32 * k + 32
    ensures n / 32 * 32 == 32 * k && n % 32 == n - 32 * k
    ensures n / 16 * 16 == 32 * k + if n % 32 >= 16 then 16 else 0
  {
    var r := n - 32 * k;
    assert n / 32 == k && n % 32 == r;
    if r >= 16 {
      assert n == 16 * (2 * k + 1) + (r - 16);
      assert n / 16 == 2 * k + 1;
    } else {
      assert n / 16 == 2 * k;
    }
  }

  lemma {:induction false} ShortHalfMeans(h: Words4, rest: seq<byte>)
    ensures ShortHalf(h, rest) == if |rest| < 16 then h else ShortPair(h, rest)
  {
    hide ShortPair;
  }

  /** Short up to the last 0 to 15 bytes. */
  method ShortSetsInPlace(h: array<Word>, msg: seq<byte>) returns (pos: nat)
    requires h.Length == 4
    modifies h
    ensures pos == |msg| / 16 * 16
    ensures var whole := |msg| / 32 * 32;
            h[..] == ShortHalf(ShortAbsorb(old(h[..]), msg[..whole]), msg[whole..])
  {
    hide *;
    ShortHalfMeans(h[..], msg);
    ghost var h0: Words4 := h[..];
    pos := 0;
    var remainder := |msg| % 32;
    ghost var k := 0;
    ShortAbsorbEmpty(h0, msg[..0]);
    if |msg| > 15 {
      while pos + 32 <= |msg|
        invariant pos == 32 * k <= |msg|
        invariant h[..] == ShortAbsorb(h0, msg[..pos])
      {
        ShortAbsorbStep(h0, msg, pos);
        ShortSetInPlace(h, msg[pos..]);
        pos, k := pos + 32, k + 1;
      }
      Wholes(|msg|, k);
      ShortHalfMeans(h[..], msg[pos..]);
      if remainder >= 16 {
        ShortPairInPlace(h, msg[pos..]);
        pos := pos + 16;
      }
    } else {
      Wholes(|msg|, 0);
      assert msg[0..] == msg;
    }
  }

  method Short(msg: seq<byte>, seed1: Word, seed2: Word) returns (hash1: Word, hash2: Word)
    ensures (hash1, hash2) == ShortHash(msg, seed1, seed2)
  {
    hide ShortHalf, ShortAbsorb, ShortEnd, Plus, LengthWord, WordOf;
    var h := new Word[4][seed1, seed2, SC_CONST, SC_CONST];
    assert h[..] == [seed1, seed2, SC_CONST, SC_CONST];
    var pos := ShortSetsInPlace(h, msg);
    ghost var h1: Words4 := h[..];
    h[3] := Plus(h[3], LengthWord(|msg|));
    h[2], h[3] := AddTail(msg[pos..], h[2], h[3]);
    assert h[..] == ShortTail(h1, msg[pos..], |msg|);
    ShortEndInPlace(h);
    hash1, hash2 := h[0], h[1];
  }

  lemma {:induction false} ShortAbsorbEmpty(h: Words4, msg: seq<byte>)
    requires msg == []
    ensures ShortAbsorb(h, msg) == h
  {
  }

  // ----- whole blocks -----------------------------------------------------------------------

  lemma {:induction false} AbsorbStep(h: Words12, msg: seq<byte>, n: nat)
    requires n % BLOCK_SIZE == 0 && n + BLOCK_SIZE <= |msg|
    ensures Absorb(h, msg[..n + BLOCK_SIZE]) == Mix(Absorb(h, msg[..n]), Block(msg[n..n + BLOCK_SIZE]))
  {
    hide Mix, Block;
    var t := msg[..n + BLOCK_SIZE];
    assert t[..n] == msg[..n] && t[n..] == msg[n..n + BLOCK_SIZE];
  }

  lemma {:induction false} AbsorbNothing(h: Words12, msg: seq<byte>)
    requires msg == []
    ensures Absorb(h, msg) == h
  {
  }

  /** The words `h` are what is left of absorbing the first `n` bytes of `all`, in whole blocks. */
  ghost predicate Absorbed(h: seq<Word>, h0: Words12, all: seq<byte>, n: nat) {
    n <= |all| && n % BLOCK_SIZE == 0 && h == Absorb(h0, all[..n])
  }

  lemma {:induction false} AbsorbedOne(h: Words12, h0: Words12, all: seq<byte>, n: nat, block: seq<byte>)
    requires Absorbed(h, h0, all, n) && n + BLOCK_SIZE <= |all| && block == all[n..n + BLOCK_SIZE]
    ensures Absorbed(Mix(h, Block(block)), h0, all, n + BLOCK_SIZE)
  {
    hide Absorb, Mix, Block;
    AbsorbStep(h0, all, n);
  }

  lemma {:induction false} AbsorbedLonger(h: seq<Word>, h0: Words12, all: seq<byte>, more: seq<byte>, n: nat)
    requires Absorbed(h, h0, all, n)
    ensures Absorbed(h, h0, all + more, n)
  {
    assert (all + more)[..n] == all[..n];
  }

  /** Mixes in whole blocks of `msg` from `pos0` on, as long as there are any. */
  method AbsorbBlocks(h: array<Word>, ghost h0: Words12, msg: seq<byte>, pos0: nat, ghost before: seq<byte>)
    returns (pos: nat)
    requires h.Length == 12 && pos0 <= |msg|
    requires Absorbed(h[..], h0, before + msg, |before| + pos0)
    modifies h
    ensures pos0 <= pos <= |msg| < pos + BLOCK_SIZE
    ensures Absorbed(h[..], h0, before + msg, |before| + pos)
  {
    hide Absorbed, Mix, Block;
    pos := pos0;
    while pos + BLOCK_SIZE <= |msg|
      invariant pos0 <= pos <= |msg|
      invariant Absorbed(h[..], h0, before + msg, |before| + pos)
    {
      var block := msg[pos..pos + BLOCK_SIZE];
      assert block == (before + msg)[|before| + pos..|before| + pos + BLOCK_SIZE];
      AbsorbedOne(h[..], h0, before + msg, |before| + pos, block);
      MixInPlace(h, Block(block));
      pos := pos + BLOCK_SIZE;
    }
  }

  /** The whole hash in one call. */
  method HashOnce(msg: seq<byte>, seed1: Word, seed2: Word) returns (hash1: Word, hash2: Word)
    ensures (hash1, hash2) == Hash128(msg, seed1, seed2)
  {
    hide Absorb, Mix, Block, ShortHash, End;
    if |msg| < BUF_SIZE {
      hash1, hash2 := Short(msg, seed1, seed2);
      return;
    }
    var h := new Word[12][seed1, seed2, SC_CONST, seed1, seed2, SC_CONST, seed1, seed2, SC_CONST,
                          seed1, seed2, SC_CONST];
    ghost var h0 := Seeded(seed1, seed2);
    assert h[..] == h0;
    AbsorbNothing(h0, ([] + msg)[..0]);
    var pos := AbsorbBlocks(h, h0, msg, 0, []);
    assert [] + msg == msg;
    assert pos == |msg| / BLOCK_SIZE * BLOCK_SIZE;
    EndInPlace(Block(LastBlock(msg[pos..])), h);
    hash1, hash2 := h[0], h[1];
  }

  // ----- the streaming hash -----------------------------------------------------------------

  class SpookyHash {
    const data: array<byte>   // unhashed bytes, room for two blocks
    const state: array<Word>
    var length: nat
    var remainder: nat
    ghost var message: seq<byte>
    ghost var seed1: Word
    ghost var seed2: Word

    /** Fewer than 192 bytes are all in the stash; from then on the state has absorbed all but the
        last `remainder` bytes, in whole blocks, and the stash holds these. */
    ghost predicate Valid()
      reads this, data, state
    {
      && data.Length == BUF_SIZE && state.Length == 12
      && length == |message| && remainder < BUF_SIZE && remainder <= length
      && data[..remainder] == message[length - remainder..]
      && (length < BUF_SIZE ==> remainder == length && state[0] == seed1 && state[1] == seed2)
      && (length >= BUF_SIZE ==> Absorbed(state[..], Seeded(seed1, seed2), message, length - remainder))
    }

    constructor Init(s1: Word, s2: Word)
      ensures Valid() && message == [] && seed1 == s1 && seed2 == s2
      ensures fresh(data) && fresh(state)
    {
      data := new byte[BUF_SIZE];
      state := new Word[12];
      length, remainder := 0, 0;
      message, seed1, seed2 := [], s1, s2;
      new;
      state[0], state[1] := s1, s2;
    }

    /** memcpy of `bytes` to the stash at `at`. */
    method Stash(bytes: seq<byte>, at: nat)
      requires at + |bytes| <= data.Length
      modifies data
      ensures data[..at + |bytes|] == old(data[..at]) + bytes
    {
      for i := 0 to |bytes|
        invariant data[..at + i] == old(data[..at]) + bytes[..i]
      {
        data[at + i] := bytes[i];
        assert data[..at + i + 1] == data[..at + i] + [bytes[i]];
      }
    }

    /** The twelve words that have absorbed all but the stashed bytes. */
    method LoadState() returns (h: array<Word>)
      requires Valid()
      ensures Valid() && fresh(h) && h.Length == 12
      ensures Absorbed(h[..], Seeded(seed1, seed2), message, length - remainder)
    {
      hide Absorb;
      if length < BUF_SIZE {
        var s1, s2 := state[0], state[1];
        h := new Word[12][s1, s2, SC_CONST, s1, s2, SC_CONST, s1, s2, SC_CONST, s1, s2, SC_CONST];
        AbsorbNothing(Seeded(s1, s2), message[..length - remainder]);
        assert h[..] == Seeded(s1, s2);
      } else {
        h := new Word[12](i requires 0 <= i < 12 && state.Length == 12 reads state => state[i]);
        assert h[..] == state[..];
      }
    }

    method StoreState(h: array<Word>)
      requires h.Length == 12 && state.Length == 12
      modifies state
      ensures state[..] == old(h[..])
    {
      ghost var words := h[..];
      for i := 0 to 12
        invariant state[..i] == words[..i] && (h != state ==> h[..] == words)
        invariant h == state ==> state[..] == words
      {
        state[i] := h[i];
      }
      assert state[..] == state[..12] && words == words[..12];
    }

    /** Fills up the stash with the start of the fragment and mixes in its two blocks. */
    method MixStash(h: array<Word>, fragment: seq<byte>) returns (pos: nat)
      requires Valid() && |fragment| + remainder >= BUF_SIZE && remainder > 0
      requires h.Length == 12 && Absorbed(h[..], Seeded(seed1, seed2), message, length - remainder)
      modifies data, h
      ensures pos == BUF_SIZE - remainder
      ensures Absorbed(h[..], Seeded(seed1, seed2), message + fragment, length + pos)
    {
      hide Absorbed, Mix, Block, Seeded;
      ghost var stashed := data[..remainder];
      pos := BUF_SIZE - remainder;
      Stash(fragment[..pos], remainder);
      assert data[..] == data[..BUF_SIZE] == stashed + fragment[..pos];
      AbsorbStash(h[..], Seeded(seed1, seed2), stashed + fragment[..pos], message, fragment, length - remainder);
      MixTwoBlocks(h, data[..]);
    }

    /** Stashes what is left of the fragment from `pos` on, and the words. */
    method StashRest(h: array<Word>, fragment: seq<byte>, pos: nat)
      requires data.Length == BUF_SIZE && state.Length == 12 && length == |message|
      requires h.Length == 12 && h != state
      requires pos <= |fragment| < pos + BLOCK_SIZE
      requires |message| + |fragment| >= BUF_SIZE
      requires Absorbed(h[..], Seeded(seed1, seed2), message + fragment, |message| + pos)
      modifies this, data, state
      ensures Valid()
      ensures message == old(message) + fragment && seed1 == old(seed1) && seed2 == old(seed2)
    {
      hide Absorb;
      length := |fragment| + length;
      remainder := |fragment| - pos;
      Stash(fragment[pos..], 0);
      StoreState(h);
      message := message + fragment;
      assert message[length - remainder..] == fragment[pos..];
    }

    /** A fragment that fits the stash. */
    method StashAll(fragment: seq<byte>)
      requires Valid() && |fragment| + remainder < BUF_SIZE
      modifies this, data
      ensures Valid()
      ensures message == old(message) + fragment && seed1 == old(seed1) && seed2 == old(seed2)
    {
      hide Absorb, Seeded;
      ghost var done := length - remainder;
      Stash(fragment, remainder);
      length := |fragment| + length;
      remainder := |fragment| + remainder;
      message := message + fragment;
      assert message[..done] == old(message)[..done];
      assert message[done..] == old(message)[done..] + fragment;
    }

    /** Mixes in the stash, if there is anything in it, with the start of the fragment. */
    method UseStash(h: array<Word>, fragment: seq<byte>) returns (pos: nat)
      requires Valid() && |fragment| + remainder >= BUF_SIZE
      requires h.Length == 12 && Absorbed(h[..], Seeded(seed1, seed2), message, length - remainder)
      modifies data, h
      ensures pos <= |fragment|
      ensures Absorbed(h[..], Seeded(seed1, seed2), message + fragment, length + pos)
    {
      hide Absorbed, Seeded;
      if remainder > 0 {
        pos := MixStash(h, fragment);
      } else {
        pos := 0;
        AbsorbedLonger(h[..], Seeded(seed1, seed2), message, fragment, length);
      }
    }

    /** What adding a piece relies on. */
    lemma {:induction false} ValidMeans()
      requires Valid()
      ensures data.Length == BUF_SIZE && state.Length == 12
      ensures length == |message| && remainder < BUF_SIZE && remainder <= length
    {
    }

    /** Adds a piece of the message. */
    method Update(fragment: seq<byte>)
      requires Valid() && |message| + |fragment| < TWO_TO_THE_64
      modifies this, data, state
      ensures Valid()
      ensures message == old(message) + fragment && seed1 == old(seed1) && seed2 == old(seed2)
    {
      hide *;
      ValidMeans();
      if |fragment| + remainder < BUF_SIZE {
        StashAll(fragment);
      } else {
        var h := LoadState();
        var pos := UseStash(h, fragment);
        pos := AbsorbBlocks(h, Seeded(seed1, seed2), fragment, pos, message);
        StashRest(h, fragment, pos);
      }
    }

    /** Mixes in a whole first block of the stash, if there is one. */
    method MixFirstBlock(h: array<Word>) returns (at: nat, rest: nat)
      requires Valid() && h.Length == 12 && h != state
      requires Absorbed(h[..], Seeded(seed1, seed2), message, length - remainder)
      modifies h
      ensures remainder == at + rest && rest < BLOCK_SIZE && (at == 0 || at == BLOCK_SIZE)
      ensures Absorbed(h[..], Seeded(seed1, seed2), message, length - rest)
    {
      hide Absorbed, Mix, Block, Seeded;
      at, rest := 0, remainder;
      if rest >= BLOCK_SIZE {
        ghost var done := length - remainder;
        assert data[..BLOCK_SIZE] == data[..remainder][..BLOCK_SIZE] == message[done..done + BLOCK_SIZE];
        AbsorbedOne(h[..], Seeded(seed1, seed2), message, done, data[..BLOCK_SIZE]);
        MixInPlace(h, Block(data[..BLOCK_SIZE]));
        at, rest := BLOCK_SIZE, rest - BLOCK_SIZE;
      }
    }

    /** Final for a message of at least 192 bytes. */
    method FinalLong() returns (hash1: Word, hash2: Word)
      requires Valid() && length >= BUF_SIZE
      modifies data
      ensures Valid()
      ensures (hash1, hash2) == LongHash(message, seed1, seed2)
    {
      hide Absorb, Block, End, Seeded, LastBlock;
      var h := LoadState();
      var at, rest := MixFirstBlock(h);
      assert length - rest == length / BLOCK_SIZE * BLOCK_SIZE;
      PadStash(at, rest);
      EndInPlace(Block(data[at..at + BLOCK_SIZE]), h);
      hash1, hash2 := h[0], h[1];
    }

    /** memset behind the stashed bytes, and the length in the last byte. */
    method WritePadding(at: nat, rest: nat)
      requires data.Length == BUF_SIZE && remainder == at + rest && rest < BLOCK_SIZE && (at == 0 || at == BLOCK_SIZE)
      modifies data
      ensures data[..remainder] == old(data[..remainder])
      ensures data[at..at + BLOCK_SIZE] == LastBlock(old(data[at..remainder]))
    {
      hide LastBlock;
      ghost var stashed := data[..remainder];
      assert stashed[at..] == data[at..remainder];
      Stash(Zeros(BLOCK_SIZE - rest), remainder);
      ghost var zeroed := data[..at + BLOCK_SIZE];
      data[at + BLOCK_SIZE - 1] := rest;
      ghost var padded := data[..at + BLOCK_SIZE];
      assert padded == zeroed[at + BLOCK_SIZE - 1 := rest as byte];
      PaddedStash(stashed, at, rest);
      assert data[..remainder] == padded[..remainder] && data[at..at + BLOCK_SIZE] == padded[at..];
    }

    /** Overwrites the stash behind the stashed bytes with the padding of the last block. */
    method PadStash(at: nat, rest: nat)
      requires Valid() && remainder == at + rest && rest < BLOCK_SIZE && (at == 0 || at == BLOCK_SIZE)
      modifies data
      ensures Valid()
      ensures data[at..at + BLOCK_SIZE] == LastBlock(message[length - rest..])
    {
      hide SpookyHash.Valid, LastBlock;
      StashMeans();
      ghost var stashed := data[..remainder];
      EndOfStash(message, stashed, at, rest);
      assert data[at..remainder] == stashed[at..];
      label before: WritePadding(at, rest);
      StashKept@before();
    }

    lemma StashMeans()
      requires Valid()
      ensures data.Length == BUF_SIZE && state.Length == 12 && remainder <= length == |message|
      ensures data[..remainder] == message[length - remainder..]
    {
    }

    /** Only the stashed bytes count. */
    twostate lemma StashKept()
      requires old(Valid()) && remainder <= data.Length
      requires message == old(message) && length == old(length) && remainder == old(remainder)
      requires seed1 == old(seed1) && seed2 == old(seed2) && state[..] == old(state[..])
      requires data[..remainder] == old(data[..remainder])
      ensures Valid()
    {
      hide Absorbed, Seeded;
    }

    /** The hash of all pieces so far.  It may overwrite the stash behind the stashed bytes, and
        leaves everything else as it is. */
    method Final() returns (hash1: Word, hash2: Word)
      requires Valid()
      modifies data
      ensures Valid()
      ensures (hash1, hash2) == Hash128(message, seed1, seed2)
    {
      hide Absorb, LongHash, ShortHash;
      if length < BUF_SIZE {
        assert data[..length] == message;
        hash1, hash2 := Short(data[..length], state[0], state[1]);
      } else {
        hash1, hash2 := FinalLong();
      }
    }
  }

  lemma {:induction false} EndOfStash(message: seq<byte>, stashed: seq<byte>, at: nat, rest: nat)
    requires at + rest <= |message| && stashed == message[|message| - (at + rest)..]
    ensures stashed[at..] == message[|message| - rest..]
  {
  }

  lemma {:induction false} ZerosThen(s: seq<byte>, n: nat, v: byte)
    ensures (s + Zeros(n + 1))[|s| + n := v] == s + (Zeros(n) + [v])
  {
  }

  lemma {:induction false} PartsOf(s: seq<byte>, at: nat, z: seq<byte>)
    requires at <= |s|
    ensures (s + z)[..|s|] == s && (s + z)[at..] == s[at..] + z
  {
  }

  lemma {:induction false} LastBlockIs(tail: seq<byte>)
    requires |tail| < BLOCK_SIZE
    ensures LastBlock(tail) == tail + (Zeros(BLOCK_SIZE - 1 - |tail|) + [|tail|])
  {
    hide Zeros;
  }

  lemma {:induction false} PaddedStash(stashed: seq<byte>, at: nat, rest: nat)
    requires |stashed| == at + rest && rest < BLOCK_SIZE
    ensures var padded := (stashed + Zeros(BLOCK_SIZE - rest))[at + BLOCK_SIZE - 1 := rest as byte];
            padded[..at + rest] == stashed && padded[at..] == LastBlock(stashed[at..])
  {
    hide Zeros, LastBlock;
    var n := BLOCK_SIZE - 1 - rest;
    ZerosThen(stashed, n, rest);
    PartsOf(stashed, at, Zeros(n) + [rest]);
    LastBlockIs(stashed[at..]);
  }

  lemma {:induction false} StashIsNext(stash: seq<byte>, message: seq<byte>, fragment: seq<byte>, done: nat)
    requires done <= |message| && |message| - done < BUF_SIZE
    requires |fragment| >= BUF_SIZE - (|message| - done)
    requires stash == message[done..] + fragment[..BUF_SIZE - (|message| - done)]
    ensures |stash| == BUF_SIZE
    ensures stash[..BLOCK_SIZE] == (message + fragment)[done..done + BLOCK_SIZE]
    ensures stash[BLOCK_SIZE..] == (message + fragment)[done + BLOCK_SIZE..done + BUF_SIZE]
  {
    var all, n := message + fragment, BUF_SIZE - (|message| - done);
    assert all[done..] == message[done..] + fragment;
    assert (message[done..] + fragment)[..BUF_SIZE] == message[done..] + fragment[..n];
    assert stash == all[done..][..BUF_SIZE];
    assert stash[..BLOCK_SIZE] == all[done..][..BLOCK_SIZE];
    assert stash[BLOCK_SIZE..] == all[done..][BLOCK_SIZE..BUF_SIZE];
  }

  /** A full stash is the next two blocks of the message. */
  lemma {:induction false} AbsorbStash(h: Words12, h0: Words12, stash: seq<byte>, message: seq<byte>,
                                       fragment: seq<byte>, done: nat)
    requires done <= |message| && |message| - done < BUF_SIZE
    requires |fragment| >= BUF_SIZE - (|message| - done)
    requires stash == message[done..] + fragment[..BUF_SIZE - (|message| - done)]
    requires Absorbed(h, h0, message, done)
    ensures |stash| == BUF_SIZE
    ensures Absorbed(Mix(Mix(h, Block(stash[..BLOCK_SIZE])), Block(stash[BLOCK_SIZE..])), h0,
                     message + fragment, done + BUF_SIZE)
  {
    hide Absorb, Mix, Block;
    var all := message + fragment;
    assert message[..done] == all[..done];
    StashIsNext(stash, message, fragment, done);
    AbsorbedOne(h, h0, all, done, stash[..BLOCK_SIZE]);
    AbsorbedOne(Mix(h, Block(stash[..BLOCK_SIZE])), h0, all, done + BLOCK_SIZE, stash[BLOCK_SIZE..]);
  }

  method MixTwoBlocks(h: array<Word>, stash: seq<byte>)
    requires h.Length == 12 && |stash| == BUF_SIZE
    modifies h
    ensures h[..] == Mix(Mix(old(h[..]), Block(stash[..BLOCK_SIZE])), Block(stash[BLOCK_SIZE..]))
  {
    hide Mix, Block;
    MixInPlace(h, Block(stash[..BLOCK_SIZE]));
    MixInPlace(h, Block(stash[BLOCK_SIZE..]));
  }

  // ----- any sequence of pieces -------------------------------------------------------------

  lemma {:induction false} ConcatPrefix(pieces: seq<seq<byte>>, n: nat)
    requires n < |pieces|
    ensures Concat(pieces[..n + 1]) == Concat(pieces[..n]) + pieces[n]
    ensures |Concat(pieces[..n + 1])| <= |Concat(pieces)|
    decreases |pieces| - n
  {
    assert pieces[..n + 1][..n] == pieces[..n];
    if n + 1 < |pieces| {
      ConcatPrefix(pieces, n + 1);
    } else {
      assert pieces[..n + 1] == pieces;
    }
  }

  /** Init, any pieces given to Update, and Final after each of them: every answer is the one-shot
      hash of the pieces so far, so asking for it does not disturb what follows. */
  method HashPieces(pieces: seq<seq<byte>>, seed1: Word, seed2: Word) returns (hashes: seq<(Word, Word)>)
    requires |Concat(pieces)| < TWO_TO_THE_64
    ensures |hashes| == |pieces|
    ensures forall i :: 0 <= i < |pieces| ==> hashes[i] == Hash128(Concat(pieces[..i + 1]), seed1, seed2)
  {
    hide *;
    hashes := [];
    var hasher := new SpookyHash.Init(seed1, seed2);
    NoPieces(pieces);
    for i := 0 to |pieces|
      invariant hasher.Valid() && fresh(hasher) && fresh(hasher.data) && fresh(hasher.state)
      invariant hasher.seed1 == seed1 && hasher.seed2 == seed2 && hasher.message == Concat(pieces[..i])
      invariant |hashes| == i
      invariant forall j :: 0 <= j < i ==> hashes[j] == Hash128(Concat(pieces[..j + 1]), seed1, seed2)
    {
      ConcatPrefix(pieces, i);
      hasher.Update(pieces[i]);
      var hash1, hash2 := hasher.Final();
      hashes := hashes + [(hash1, hash2)];
    }
  }

  lemma {:induction false} NoPieces(pieces: seq<seq<byte>>)
    ensures Concat(pieces[..0]) == []
  {
  }

  // ----- the hash of a tile (common/Png.hpp) ------------------------------------------------

  const TILE_SEED: Word := 1073741789

  /** The bytes of the first `n` rows of the tile, joined. */
  function TileBytes(pixmap: seq<byte>, startX: nat, startY: nat, width: nat, height: nat,
                     bufferWidth: nat, bufferHeight: nat, n: nat): (bytes: seq<byte>)
    requires InBuffer(pixmap, startX, startY, width, height, bufferWidth, bufferHeight) && n <= height
  {
    Concat(Window(pixmap, startX, startY, width, height, bufferWidth, bufferHeight)[..n])
  }

  lemma {:induction false} TileBytesFit(pixmap: seq<byte>, startX: nat, startY: nat, width: nat, height: nat,
                                        bufferWidth: nat, bufferHeight: nat, n: nat)
    requires InBuffer(pixmap, startX, startY, width, height, bufferWidth, bufferHeight) && n <= height
    ensures |TileBytes(pixmap, startX, startY, width, height, bufferWidth, bufferHeight, n)| == n * (4 * width)
    ensures n * (4 * width) <= |pixmap|
  {
    hide Window;
    var rows := Window(pixmap, startX, startY, width, height, bufferWidth, bufferHeight);
    SameSizes(rows[..n], 4 * width);
    MulMonotone(n, bufferHeight, 4 * width);
    MulMonotone(4 * width, 4 * bufferWidth, bufferHeight);
  }

  lemma {:induction false} SameSizes(pieces: seq<seq<byte>>, size: nat)
    requires forall i :: 0 <= i < |pieces| ==> |pieces[i]| == size
    ensures |Concat(pieces)| == |pieces| * size
  {
    if pieces != [] {
      SameSizes(pieces[..|pieces| - 1], size);
      OneMore(size, |pieces| - 1);
    }
  }

  lemma {:induction false} TileBytesStep(pixmap: seq<byte>, startX: nat, startY: nat, width: nat, height: nat,
                                         bufferWidth: nat, bufferHeight: nat, y: nat)
    requires InBuffer(pixmap, startX, startY, width, height, bufferWidth, bufferHeight) && y < height
    ensures TileBytes(pixmap, startX, startY, width, height, bufferWidth, bufferHeight, y + 1) ==
            TileBytes(pixmap, startX, startY, width, height, bufferWidth, bufferHeight, y) +
            Window(pixmap, startX, startY, width, height, bufferWidth, bufferHeight)[y]
  {
    hide Window;
    var rows := Window(pixmap, startX, startY, width, height, bufferWidth, bufferHeight);
    assert rows[..y + 1][..y] == rows[..y];
  }

  lemma {:induction false} TileBytesEnds(pixmap: seq<byte>, startX: nat, startY: nat, width: nat, height: nat,
                                         bufferWidth: nat, bufferHeight: nat)
    requires InBuffer(pixmap, startX, startY, width, height, bufferWidth, bufferHeight)
    ensures TileBytes(pixmap, startX, startY, width, height, bufferWidth, bufferHeight, 0) == []
    ensures TileBytes(pixmap, startX, startY, width, height, bufferWidth, bufferHeight, height) ==
            Concat(Window(pixmap, startX, startY, width, height, bufferWidth, bufferHeight))
  {
    hide Window;
    var rows := Window(pixmap, startX, startY, width, height, bufferWidth, bufferHeight);
    assert rows[..height] == rows;
  }

  lemma {:induction false} SeedIs()
    ensures TILE_SEED == 1073741789
  {
  }

  /** hashSubBuffer: 0 for a tile that is larger than the buffer, else the first half of the
      one-shot hash of the tile's rows joined. */
  method HashSubBuffer(pixmap: seq<byte>, startX: nat, startY: nat, width: nat, height: nat,
                       bufferWidth: nat, bufferHeight: nat) returns (hash: Word)
    requires width <= bufferWidth && height <= bufferHeight ==>
               InBuffer(pixmap, startX, startY, width, height, bufferWidth, bufferHeight)
    requires |pixmap| < TWO_TO_THE_64
    ensures bufferWidth < width || bufferHeight < height ==> hash == 0
    ensures width <= bufferWidth && height <= bufferHeight ==>
              hash == Hash128(Concat(Window(pixmap, startX, startY, width, height, bufferWidth, bufferHeight)),
                              1073741789, 1073741789).0
  {
    hide *;
    if bufferWidth < width || bufferHeight < height {
      return 0;
    }
    SeedIs();
    var hasher := new SpookyHash.Init(TILE_SEED, TILE_SEED);
    TileBytesEnds(pixmap, startX, startY, width, height, bufferWidth, bufferHeight);
    for y := 0 to height
      invariant hasher.Valid() && fresh(hasher) && fresh(hasher.data) && fresh(hasher.state)
      invariant hasher.seed1 == TILE_SEED && hasher.seed2 == TILE_SEED
      invariant hasher.message == TileBytes(pixmap, startX, startY, width, height, bufferWidth, bufferHeight, y)
    {
      RowIsOfWindow(pixmap, startX, startY, width, height, bufferWidth, bufferHeight, y);
      TileBytesFit(pixmap, startX, startY, width, height, bufferWidth, bufferHeight, y + 1);
      TileBytesStep(pixmap, startX, startY, width, height, bufferWidth, bufferHeight, y);
      var position := 4 * RowStart(startX, startY, bufferWidth, y);
      hasher.Update(pixmap[position..position + 4 * width]);
    }
    var hash1, hash2 := hasher.Final();
    hash := hash1;
  }
}
