/**
 What SpookyHash makes of the bytes of a message: the value of the words that are read from it, and the
 proof that the state it ends with tells messages apart which differ in one word.
*/
module SpookyTells {

  import opened Arithmetic
  import opened Wrappers
  import opened SpookyMix
  import opened SpookyHashes

  // ----- the value of a word ----------------------------------------------------------------

  /** Eight bytes as a word, the lowest first. */
  function Little(b0: bv8, b1: bv8, b2: bv8, b3: bv8, b4: bv8, b5: bv8, b6: bv8, b7: bv8): Word {
    ((b7 as Word) << 56) | ((b6 as Word) << 48) | ((b5 as Word) << 40) | ((b4 as Word) << 32) |
    ((b3 as Word) << 24) | ((b2 as Word) << 16) | ((b1 as Word) << 8) | (b0 as Word)
  }

  function LittleAt(s: seq<byte>): Word
    requires |s| == 8
  {
    Little(Bits(s[0]), Bits(s[1]), Bits(s[2]), Bits(s[3]), Bits(s[4]), Bits(s[5]), Bits(s[6]), Bits(s[7]))
  }

  function Value(bit: bool, n: nat): nat { if bit then n else 0 }

  function Number(bits: bv8): nat { bits as nat }

  lemma {:induction false} BitsValue(p0: bool, p1: bool, p2: bool, p3: bool, p4: bool, p5: bool, p6: bool, p7: bool)
    ensures Number(EightBits(p0, p1, p2, p3, p4, p5, p6, p7)) ==
            Value(p0, 1) + Value(p1, 2) + Value(p2, 4) + Value(p3, 8) +
            Value(p4, 16) + Value(p5, 32) + Value(p6, 64) + Value(p7, 128)
  {
  }

  lemma {:induction false} HalfIs(n: nat)
    ensures n == 2 * Half(n) + Value(Odd(n), 1)
    ensures var v := Value(Odd(n), 1);
            && Value(Odd(n), 2) == 2 * v && Value(Odd(n), 4) == 4 * v && Value(Odd(n), 8) == 8 * v
            && Value(Odd(n), 16) == 16 * v && Value(Odd(n), 32) == 32 * v && Value(Odd(n), 64) == 64 * v
            && Value(Odd(n), 128) == 128 * v
  {
  }

  /** Eight halvings of a number below 256. */
  lemma {:induction false} BinaryDigits(b: nat, b1: nat, b2: nat, b3: nat, b4: nat, b5: nat, b6: nat, b7: nat, b8: nat,
                                        v0: nat, v1: nat, v2: nat, v3: nat, v4: nat, v5: nat, v6: nat, v7: nat)
    requires b < 256 && b == 2 * b1 + v0 && b1 == 2 * b2 + v1 && b2 == 2 * b3 + v2 && b3 == 2 * b4 + v3
    requires b4 == 2 * b5 + v4 && b5 == 2 * b6 + v5 && b6 == 2 * b7 + v6 && b7 == 2 * b8 + v7
    ensures b == v0 + 2 * v1 + 4 * v2 + 8 * v3 + 16 * v4 + 32 * v5 + 64 * v6 + 128 * v7
  {
    assert b == 256 * b8 + (v0 + 2 * v1 + 4 * v2 + 8 * v3 + 16 * v4 + 32 * v5 + 64 * v6 + 128 * v7);
  }

  lemma {:induction false} BitsAre(b: byte)
    ensures var b1 := Half(b);
            var b2 := Half(b1);
            var b3 := Half(b2);
            var b4 := Half(b3);
            var b5 := Half(b4);
            var b6 := Half(b5);
            Bits(b) == EightBits(Odd(b), Odd(b1), Odd(b2), Odd(b3), Odd(b4), Odd(b5), Odd(b6), Odd(Half(b6)))
  {
    hide Half, Odd, EightBits;
  }

  lemma {:induction false} BitsNumber(b: byte, b1: nat, b2: nat, b3: nat, b4: nat, b5: nat, b6: nat, b7: nat)
    requires b1 == Half(b) && b2 == Half(b1) && b3 == Half(b2) && b4 == Half(b3)
    requires b5 == Half(b4) && b6 == Half(b5) && b7 == Half(b6)
    ensures Number(Bits(b)) ==
            Value(Odd(b), 1) + Value(Odd(b1), 2) + Value(Odd(b2), 4) + Value(Odd(b3), 8) +
            Value(Odd(b4), 16) + Value(Odd(b5), 32) + Value(Odd(b6), 64) + Value(Odd(b7), 128)
  {
    hide *;
    BitsAre(b);
    BitsValue(Odd(b), Odd(b1), Odd(b2), Odd(b3), Odd(b4), Odd(b5), Odd(b6), Odd(b7));
  }

  lemma {:induction false} HalvesAre(b: byte, b1: nat, b2: nat, b3: nat, b4: nat, b5: nat, b6: nat, b7: nat)
    requires b1 == Half(b) && b2 == Half(b1) && b3 == Half(b2) && b4 == Half(b3)
    requires b5 == Half(b4) && b6 == Half(b5) && b7 == Half(b6)
    ensures b == Value(Odd(b), 1) + Value(Odd(b1), 2) + Value(Odd(b2), 4) + Value(Odd(b3), 8) +
                 Value(Odd(b4), 16) + Value(Odd(b5), 32) + Value(Odd(b6), 64) + Value(Odd(b7), 128)
  {
    hide *;
    HalfIs(b);
    HalfIs(b1);
    HalfIs(b2);
    HalfIs(b3);
    HalfIs(b4);
    HalfIs(b5);
    HalfIs(b6);
    HalfIs(b7);
    BinaryDigits(b, b1, b2, b3, b4, b5, b6, b7, Half(b7), Value(Odd(b), 1), Value(Odd(b1), 1), Value(Odd(b2), 1),
                 Value(Odd(b3), 1), Value(Odd(b4), 1), Value(Odd(b5), 1), Value(Odd(b6), 1), Value(Odd(b7), 1));
  }

  lemma {:induction false} ByteIs(b: byte)
    ensures Number(Bits(b)) == b
  {
    hide *;
    var b1 := Half(b);
    var b2 := Half(b1);
    var b3 := Half(b2);
    var b4 := Half(b3);
    var b5 := Half(b4);
    var b6 := Half(b5);
    BitsNumber(b, b1, b2, b3, b4, b5, b6, Half(b6));
    HalvesAre(b, b1, b2, b3, b4, b5, b6, Half(b6));
  }

  lemma {:induction false} UnionValue(b0: bv8, b1: bv8, b2: bv8, b3: bv8, b4: bv8, b5: bv8, b6: bv8, b7: bv8)
    ensures (((b7 as Word) << 56) | ((b6 as Word) << 48) | ((b5 as Word) << 40) | ((b4 as Word) << 32) |
             ((b3 as Word) << 24) | ((b2 as Word) << 16) | ((b1 as Word) << 8) | (b0 as Word)) as nat ==
            b0 as nat + 0x100 * (b1 as nat) + 0x1_0000 * (b2 as nat) + 0x100_0000 * (b3 as nat) +
            0x1_0000_0000 * (b4 as nat) + 0x100_0000_0000 * (b5 as nat) + 0x1_0000_0000_0000 * (b6 as nat) +
            0x100_0000_0000_0000 * (b7 as nat)
  {
  }

  lemma {:induction false} LittleMeans(b0: bv8, b1: bv8, b2: bv8, b3: bv8, b4: bv8, b5: bv8, b6: bv8, b7: bv8)
    ensures Little(b0, b1, b2, b3, b4, b5, b6, b7) ==
            (((b7 as Word) << 56) | ((b6 as Word) << 48) | ((b5 as Word) << 40) | ((b4 as Word) << 32) |
             ((b3 as Word) << 24) | ((b2 as Word) << 16) | ((b1 as Word) << 8) | (b0 as Word))
  {
  }

  lemma {:induction false} LittleValue(b0: bv8, b1: bv8, b2: bv8, b3: bv8, b4: bv8, b5: bv8, b6: bv8, b7: bv8)
    ensures Little(b0, b1, b2, b3, b4, b5, b6, b7) as nat ==
            b0 as nat + 0x100 * (b1 as nat) + 0x1_0000 * (b2 as nat) + 0x100_0000 * (b3 as nat) +
            0x1_0000_0000 * (b4 as nat) + 0x100_0000_0000 * (b5 as nat) + 0x1_0000_0000_0000 * (b6 as nat) +
            0x100_0000_0000_0000 * (b7 as nat)
  {
    hide *;
    UnionValue(b0, b1, b2, b3, b4, b5, b6, b7);
    LittleMeans(b0, b1, b2, b3, b4, b5, b6, b7);
  }

  lemma {:induction false} LittleTells(b0: bv8, b1: bv8, b2: bv8, b3: bv8, b4: bv8, b5: bv8, b6: bv8, b7: bv8,
                                       c0: bv8, c1: bv8, c2: bv8, c3: bv8, c4: bv8, c5: bv8, c6: bv8, c7: bv8)
    requires Little(b0, b1, b2, b3, b4, b5, b6, b7) == Little(c0, c1, c2, c3, c4, c5, c6, c7)
    ensures b0 == c0 && b1 == c1 && b2 == c2 && b3 == c3 && b4 == c4 && b5 == c5 && b6 == c6 && b7 == c7
  {
  }

  lemma {:induction false} AddOneByte(x: Word, s: seq<byte>, n: nat)
    requires 0 < n <= |s| <= 8
    ensures AddBytes(x, s[..n]) == AddBytes(Plus(x, ByteAt(s[n - 1], n - 1)), s[..n - 1])
  {
    assert s[..n][..n - 1] == s[..n - 1];
  }

  /** Reading a word is adding up its bytes at their places. */
  lemma {:induction false} AddEightBytes(s: seq<byte>)
    requires |s| == 8
    ensures var x := Plus(Plus(0, ByteAt(s[7], 7)), ByteAt(s[6], 6));
            var y := Plus(Plus(x, ByteAt(s[5], 5)), ByteAt(s[4], 4));
            var z := Plus(Plus(y, ByteAt(s[3], 3)), ByteAt(s[2], 2));
            Word64(s) == Plus(Plus(z, ByteAt(s[1], 1)), ByteAt(s[0], 0))
  {
    hide Plus, ByteAt, AddBytes;
    var x := Plus(Plus(0, ByteAt(s[7], 7)), ByteAt(s[6], 6));
    AddOneByte(0, s, 8);
    AddOneByte(Plus(0, ByteAt(s[7], 7)), s, 7);
    AddOneByte(x, s, 6);
    AddOneByte(Plus(x, ByteAt(s[5], 5)), s, 5);
    var y := Plus(Plus(x, ByteAt(s[5], 5)), ByteAt(s[4], 4));
    AddOneByte(y, s, 4);
    AddOneByte(Plus(y, ByteAt(s[3], 3)), s, 3);
    var z := Plus(Plus(y, ByteAt(s[3], 3)), ByteAt(s[2], 2));
    AddOneByte(z, s, 2);
    AddOneByte(Plus(z, ByteAt(s[1], 1)), s, 1);
    NoBytes(Plus(Plus(z, ByteAt(s[1], 1)), ByteAt(s[0], 0)), s[..0]);
  }

  // One lemma a byte: a sum of bytes at different places is their union.
  lemma {:induction false} Lane6(b7: bv8, b6: bv8)
    ensures Plus(AtPlace(b7, 7), AtPlace(b6, 6)) ==
            ((b7 as Word) << 56) | ((b6 as Word) << 48)
  {
  }

  lemma {:induction false} Lane5(b7: bv8, b6: bv8, b5: bv8)
    ensures Plus(((b7 as Word) << 56) | ((b6 as Word) << 48), AtPlace(b5, 5)) ==
            ((b7 as Word) << 56) | ((b6 as Word) << 48) | ((b5 as Word) << 40)
  {
  }

  lemma {:induction false} Lane4(b7: bv8, b6: bv8, b5: bv8, b4: bv8)
    ensures Plus(((b7 as Word) << 56) | ((b6 as Word) << 48) | ((b5 as Word) << 40), AtPlace(b4, 4)) ==
            ((b7 as Word) << 56) | ((b6 as Word) << 48) | ((b5 as Word) << 40) | ((b4 as Word) << 32)
  {
  }

  lemma {:induction false} Lane3(b7: bv8, b6: bv8, b5: bv8, b4: bv8, b3: bv8)
    ensures Plus(((b7 as Word) << 56) | ((b6 as Word) << 48) | ((b5 as Word) << 40) |
            ((b4 as Word) << 32), AtPlace(b3, 3)) ==
            ((b7 as Word) << 56) | ((b6 as Word) << 48) | ((b5 as Word) << 40) | ((b4 as Word) << 32) |
            ((b3 as Word) << 24)
  {
  }

  lemma {:induction false} Lane2(b7: bv8, b6: bv8, b5: bv8, b4: bv8, b3: bv8, b2: bv8)
    ensures Plus(((b7 as Word) << 56) | ((b6 as Word) << 48) | ((b5 as Word) << 40) | ((b4 as Word) << 32) |
            ((b3 as Word) << 24), AtPlace(b2, 2)) ==
            ((b7 as Word) << 56) | ((b6 as Word) << 48) | ((b5 as Word) << 40) | ((b4 as Word) << 32) |
            ((b3 as Word) << 24) | ((b2 as Word) << 16)
  {
  }

  lemma {:induction false} Lane1(b7: bv8, b6: bv8, b5: bv8, b4: bv8, b3: bv8, b2: bv8, b1: bv8)
    ensures Plus(((b7 as Word) << 56) | ((b6 as Word) << 48) | ((b5 as Word) << 40) | ((b4 as Word) << 32) |
            ((b3 as Word) << 24) | ((b2 as Word) << 16), AtPlace(b1, 1)) ==
            ((b7 as Word) << 56) | ((b6 as Word) << 48) | ((b5 as Word) << 40) | ((b4 as Word) << 32) |
            ((b3 as Word) << 24) | ((b2 as Word) << 16) | ((b1 as Word) << 8)
  {
  }

  lemma {:induction false} Lane0(b7: bv8, b6: bv8, b5: bv8, b4: bv8, b3: bv8, b2: bv8, b1: bv8, b0: bv8)
    ensures Plus(((b7 as Word) << 56) | ((b6 as Word) << 48) | ((b5 as Word) << 40) | ((b4 as Word) << 32) |
            ((b3 as Word) << 24) | ((b2 as Word) << 16) | ((b1 as Word) << 8), AtPlace(b0, 0)) ==
            ((b7 as Word) << 56) | ((b6 as Word) << 48) | ((b5 as Word) << 40) | ((b4 as Word) << 32) |
            ((b3 as Word) << 24) | ((b2 as Word) << 16) | ((b1 as Word) << 8) | (b0 as Word)
  {
  }

  lemma {:induction false} SumIsLittle(b0: bv8, b1: bv8, b2: bv8, b3: bv8, b4: bv8, b5: bv8, b6: bv8, b7: bv8)
    ensures var x := Plus(AtPlace(b7, 7), AtPlace(b6, 6));
            var y := Plus(Plus(x, AtPlace(b5, 5)), AtPlace(b4, 4));
            var z := Plus(Plus(y, AtPlace(b3, 3)), AtPlace(b2, 2));
            Plus(Plus(z, AtPlace(b1, 1)), AtPlace(b0, 0)) == Little(b0, b1, b2, b3, b4, b5, b6, b7)
  {
    hide Plus, AtPlace;
    Lane6(b7, b6);
    Lane5(b7, b6, b5);
    Lane4(b7, b6, b5, b4);
    Lane3(b7, b6, b5, b4, b3);
    Lane2(b7, b6, b5, b4, b3, b2);
    Lane1(b7, b6, b5, b4, b3, b2, b1);
    Lane0(b7, b6, b5, b4, b3, b2, b1, b0);
  }

  lemma {:induction false} WordIsLittle(s: seq<byte>)
    requires |s| == 8
    ensures Word64(s) == LittleAt(s)
  {
    hide Word64, Bits, AtPlace, Plus, Little;
    AddEightBytes(s);
    PlusZero(AtPlace(Bits(s[7]), 7));
    SumIsLittle(Bits(s[0]), Bits(s[1]), Bits(s[2]), Bits(s[3]), Bits(s[4]), Bits(s[5]), Bits(s[6]), Bits(s[7]));
  }

  lemma {:induction false} EightBytesValue(s: seq<byte>)
    requires |s| == 8
    ensures Word64(s) as nat ==
            (s[0] as nat) + 0x100 * (s[1] as nat) + 0x1_0000 * (s[2] as nat) + 0x100_0000 * (s[3] as nat) +
            0x1_0000_0000 * (s[4] as nat) + 0x100_0000_0000 * (s[5] as nat) + 0x1_0000_0000_0000 * (s[6] as nat) +
            0x100_0000_0000_0000 * (s[7] as nat)
  {
    hide Word64, Little, Bits, Number;
    WordIsLittle(s);
    LittleValue(Bits(s[0]), Bits(s[1]), Bits(s[2]), Bits(s[3]), Bits(s[4]), Bits(s[5]), Bits(s[6]), Bits(s[7]));
    BitsAsNumber(s[0]);
    BitsAsNumber(s[1]);
    BitsAsNumber(s[2]);
    BitsAsNumber(s[3]);
    BitsAsNumber(s[4]);
    BitsAsNumber(s[5]);
    BitsAsNumber(s[6]);
    BitsAsNumber(s[7]);
  }

  lemma {:induction false} BitsAsNumber(b: byte)
    ensures Bits(b) as nat == b
  {
    hide Bits;
    ByteIs(b);
  }

  /** A word of a message is the number that its eight bytes make up, the lowest byte first. */
  lemma {:induction false} WordValue(msg: seq<byte>, i: nat)
    requires 8 * i + 8 <= |msg|
    ensures var s := msg[8 * i..8 * i + 8];
            WordOf(msg, i) as nat ==
            (s[0] as nat) + 0x100 * (s[1] as nat) + 0x1_0000 * (s[2] as nat) + 0x100_0000 * (s[3] as nat) +
            0x1_0000_0000 * (s[4] as nat) + 0x100_0000_0000 * (s[5] as nat) + 0x1_0000_0000_0000 * (s[6] as nat) +
            0x100_0000_0000_0000 * (s[7] as nat)
  {
    hide Word64;
    EightBytesValue(msg[8 * i..8 * i + 8]);
  }

  /** Different bytes make different words. */
  lemma {:induction false} WordTells(s: seq<byte>, t: seq<byte>)
    requires |s| == |t| == 8 && s != t
    ensures Word64(s) != Word64(t)
  {
    hide Word64, Little, Bits;
    WordIsLittle(s);
    WordIsLittle(t);
    var j :| 0 <= j < 8 && s[j] != t[j];
    ByteIs(s[j]);
    ByteIs(t[j]);
    if LittleAt(s) == LittleAt(t) {
      LittleTells(Bits(s[0]), Bits(s[1]), Bits(s[2]), Bits(s[3]), Bits(s[4]), Bits(s[5]), Bits(s[6]), Bits(s[7]),
                  Bits(t[0]), Bits(t[1]), Bits(t[2]), Bits(t[3]), Bits(t[4]), Bits(t[5]), Bits(t[6]), Bits(t[7]));
      assert false;
    }
  }

  // ----- the state tells messages apart ------------------------------------------------------

  /** The messages have the same length and differ in word `k`, which may be a partial one at the end, and
      only there. */
  ghost predicate DifferAt(m1: seq<byte>, m2: seq<byte>, k: nat) {
    && |m1| == |m2| && 8 * k < |m1| && m1 != m2
    && forall i :: 0 <= i < |m1| && !(8 * k <= i < 8 * k + 8) ==> m1[i] == m2[i]
  }

  /** The same for words. */
  ghost predicate WordsDifferAt(s: seq<Word>, t: seq<Word>, k: nat) {
    && |s| == |t| && k < |s| && s[k] != t[k]
    && forall i :: 0 <= i < |s| && i != k ==> s[i] == t[i]
  }

  lemma {:induction false} DifferWords(m1: seq<byte>, m2: seq<byte>, k: nat, i: nat)
    requires DifferAt(m1, m2, k) && 8 * i + 8 <= |m1|
    ensures WordOf(m1, i) == WordOf(m2, i) <==> i != k
  {
    hide Word64;
    var w1, w2 := m1[8 * i..8 * i + 8], m2[8 * i..8 * i + 8];
    if i == k {
      var j :| 0 <= j < |m1| && m1[j] != m2[j];
      assert w1[j - 8 * k] != w2[j - 8 * k];
      WordTells(w1, w2);
    } else {
      assert w1 == w2;
    }
  }

  lemma {:induction false} RotTells(x: Word, y: Word, k: Shift)
    requires x != y
    ensures Rot64(x, k) != Rot64(y, k)
  {
    hide Rot64;
    RotBack(x, k);
    RotBack(y, k);
  }

  lemma {:induction false} PlusTells(x: Word, y: Word, z: Word)
    requires x != y
    ensures Plus(x, z) != Plus(y, z) && Plus(z, x) != Plus(z, y)
  {
    hide Plus, Minus;
    PlusMinus(x, z);
    PlusMinus(y, z);
    PlusSwap(x, z);
    PlusSwap(y, z);
  }

  lemma {:induction false} PlusSwap(x: Word, y: Word)
    ensures Plus(x, y) == Plus(y, x)
  {
  }

  // ----- long messages ----------------------------------------------------------------------

  /** A line of Mix with another word leaves another state. */
  lemma {:induction false} MixRowData(s: Words12, i: nat, d: Word, e: Word, k: Shift)
    requires i < 12 && d != e
    ensures MixRow(s, i, d, k) != MixRow(s, i, e, k)
  {
    hide Rot64, Plus, Xor;
    PlusTells(d, e, s[i]);
    RotTells(Plus(s[i], d), Plus(s[i], e), k);
    assert MixRow(s, i, d, k)[i] == Rot64(Plus(s[i], d), k);
    assert MixRow(s, i, e, k)[i] == Rot64(Plus(s[i], e), k);
  }

  /** And so does one with the same word on another state. */
  lemma {:induction false} MixRowTells(s: Words12, t: Words12, i: nat, d: Word, k: Shift)
    requires i < 12 && s != t
    ensures MixRow(s, i, d, k) != MixRow(t, i, d, k)
  {
    hide MixStep, UnMixStep;
    MixStepUndone(s, i, (i + 1) % 12, (i + 2) % 12, (i + 11) % 12, (i + 10) % 12, d, k);
    MixStepUndone(t, i, (i + 1) % 12, (i + 2) % 12, (i + 11) % 12, (i + 10) % 12, d, k);
  }

  lemma {:induction false} MixRowsTell(s: Words12, d1: Words12, d2: Words12, k: nat, n: nat)
    requires WordsDifferAt(d1, d2, k) && n <= 12
    ensures MixRows(s, d1, n) == MixRows(s, d2, n) <==> n <= k
  {
    hide MixRow;
    if n > 0 {
      MixRowsTell(s, d1, d2, k, n - 1);
      var x, y, r := MixRows(s, d1, n - 1), MixRows(s, d2, n - 1), MIX_ROT[n - 1];
      if n - 1 == k {
        MixRowData(x, n - 1, d1[k], d2[k], r);
      } else if n - 1 > k {
        MixRowTells(x, y, n - 1, d1[n - 1], r);
      }
    }
  }

  lemma {:induction false} MixTells(s: Words12, t: Words12, d: Words12)
    requires s != t
    ensures Mix(s, d) != Mix(t, d)
  {
    hide MixRows, UnMixRows;
    MixIsAPermutation(s, d);
    MixIsAPermutation(t, d);
  }

  lemma {:induction false} BlocksDiffer(m1: seq<byte>, m2: seq<byte>, k: nat)
    requires DifferAt(m1, m2, k) && |m1| == BLOCK_SIZE
    ensures k < 12 && WordsDifferAt(Block(m1), Block(m2), k)
  {
    hide WordOf;
    forall i | 0 <= i < 12 ensures WordOf(m1, i) == WordOf(m2, i) <==> i != k {
      DifferWords(m1, m2, k, i);
    }
  }

  /** Before or after the first `w` words. */
  lemma {:induction false} DifferEarlier(m1: seq<byte>, m2: seq<byte>, k: nat, w: nat)
    requires DifferAt(m1, m2, k) && 8 * w <= |m1|
    ensures k < w ==> m1[8 * w..] == m2[8 * w..] && DifferAt(m1[..8 * w], m2[..8 * w], k)
    ensures k >= w ==> m1[..8 * w] == m2[..8 * w] && DifferAt(m1[8 * w..], m2[8 * w..], k - w)
  {
    assert m1 == m1[..8 * w] + m1[8 * w..] && m2 == m2[..8 * w] + m2[8 * w..];
  }

  lemma {:induction false} WholeWords(n: nat) returns (w: nat)
    requires n % 32 == 0
    ensures n == 8 * w
  {
    w := 4 * (n / 32);
  }

  lemma {:induction false} WholeBlocks(c: nat)
    ensures c * 96 % BLOCK_SIZE == 0 && c * 96 % 32 == 0
  {
    ModOf(c, 96, 0);
    ModOf(3 * c, 32, 0);
  }

  lemma {:induction false} AbsorbLast(h: Words12, msg: seq<byte>, c: nat)
    requires |msg| == (c + 1) * 96
    ensures c * 96 % BLOCK_SIZE == 0 && |msg| % BLOCK_SIZE == 0
    ensures Absorb(h, msg) == Mix(Absorb(h, msg[..c * 96]), Block(msg[c * 96..]))
  {
    hide Mix, Block;
    WholeBlocks(c);
    WholeBlocks(c + 1);
  }

  lemma {:induction false} LastMixTells(g1: Words12, g2: Words12, b1: seq<byte>, b2: seq<byte>, k: nat)
    requires |b1| == |b2| == BLOCK_SIZE && ((g1 != g2 && b1 == b2) || (g1 == g2 && DifferAt(b1, b2, k)))
    ensures Mix(g1, Block(b1)) != Mix(g2, Block(b2))
  {
    hide Mix, Block, DifferAt, WordsDifferAt;
    if g1 == g2 {
      BlocksDiffer(b1, b2, k);
      MixTellsData(g1, Block(b1), Block(b2), k);
    } else {
      MixTells(g1, g2, Block(b1));
    }
  }

  /** In front of the last block, or in it. */
  lemma {:induction false} LastBlockOrEarlier(m1: seq<byte>, m2: seq<byte>, k: nat, c: nat)
    requires DifferAt(m1, m2, k) && c * 96 <= |m1|
    ensures |m1| == |m2|
    ensures k < c * 12 ==> m1[c * 96..] == m2[c * 96..] && DifferAt(m1[..c * 96], m2[..c * 96], k)
    ensures k >= c * 12 ==> m1[..c * 96] == m2[..c * 96] && DifferAt(m1[c * 96..], m2[c * 96..], k - c * 12)
  {
    DifferEarlier(m1, m2, k, c * 12);
  }

  lemma {:induction false} AbsorbTells(h: Words12, m1: seq<byte>, m2: seq<byte>, k: nat, c: nat)
    requires DifferAt(m1, m2, k) && |m1| == c * 96
    ensures |m1| == |m2| && |m1| % BLOCK_SIZE == 0 && Absorb(h, m1) != Absorb(h, m2)
    decreases c, 0
  {
    assert m1 != [] && |m1| == |m2|;
    hide Mix, Block, Absorb, DifferAt, WordsDifferAt;
    var d := c - 1;
    AbsorbLast(h, m1, d);
    AbsorbLast(h, m2, d);
    LastBlockOrEarlier(m1, m2, k, d);
    AbsorbTellsFrom(h, m1, m2, k, d);
  }

  lemma {:induction false} AbsorbTellsFrom(h: Words12, m1: seq<byte>, m2: seq<byte>, k: nat, d: nat)
    requires |m1| == |m2| == d * 96 + 96 && d * 96 % BLOCK_SIZE == 0
    requires k < d * 12 ==> m1[d * 96..] == m2[d * 96..] && DifferAt(m1[..d * 96], m2[..d * 96], k)
    requires k >= d * 12 ==> m1[..d * 96] == m2[..d * 96] && DifferAt(m1[d * 96..], m2[d * 96..], k - d * 12)
    ensures Mix(Absorb(h, m1[..d * 96]), Block(m1[d * 96..])) != Mix(Absorb(h, m2[..d * 96]), Block(m2[d * 96..]))
    decreases d, 1
  {
    hide Mix, Block, Absorb, DifferAt, WordsDifferAt;
    var p1, p2, b1, b2 := m1[..d * 96], m2[..d * 96], m1[d * 96..], m2[d * 96..];
    if k < d * 12 {
      AbsorbTells(h, p1, p2, k, d);
    }
    LastMixTells(Absorb(h, p1), Absorb(h, p2), b1, b2, if k < d * 12 then 0 else k - d * 12);
  }

  lemma {:induction false} MixTellsData(s: Words12, d1: Words12, d2: Words12, k: nat)
    requires WordsDifferAt(d1, d2, k)
    ensures Mix(s, d1) != Mix(s, d2)
  {
    hide MixRows;
    MixRowsTell(s, d1, d2, k, 12);
  }

  lemma {:induction false} EndTells(d1: Words12, d2: Words12, h1: Words12, h2: Words12)
    requires AddData(h1, d1) != AddData(h2, d2)
    ensures End(d1, h1) != End(d2, h2)
  {
    hide EndPartial, UnEndRows, AddData;
    var x, y := AddData(h1, d1), AddData(h2, d2);
    EndPartialTells(x, y);
    EndPartialTells(EndPartial(x), EndPartial(y));
    EndPartialTells(EndPartial(EndPartial(x)), EndPartial(EndPartial(y)));
  }

  lemma {:induction false} EndPartialTells(x: Words12, y: Words12)
    requires x != y
    ensures EndPartial(x) != EndPartial(y)
  {
    hide EndPartial, UnEndRows;
    EndPartialIsAPermutation(x);
    EndPartialIsAPermutation(y);
  }

  lemma {:induction false} AddDataTells(h: Words12, g: Words12, d: Words12, e: Words12, k: nat)
    requires k < 12 && ((h == g && d[k] != e[k]) || (h[k] != g[k] && d == e))
    ensures AddData(h, d) != AddData(g, e)
  {
    hide Plus;
    if h == g {
      PlusTells(d[k], e[k], h[k]);
    } else {
      PlusTells(h[k], g[k], d[k]);
    }
    assert AddData(h, d)[k] != AddData(g, e)[k];
  }

  lemma {:induction false} LastBlocksDiffer(t1: seq<byte>, t2: seq<byte>, k: nat)
    requires DifferAt(t1, t2, k) && |t1| < BLOCK_SIZE
    ensures DifferAt(LastBlock(t1), LastBlock(t2), k)
  {
    var b1, b2 := LastBlock(t1), LastBlock(t2);
    assert b1[..|t1|] == t1 && b2[..|t2|] == t2;
    assert b1[|t1|..] == b2[|t2|..];
  }

  lemma {:induction false} LongStateIs(msg: seq<byte>, seed1: Word, seed2: Word, c: nat)
    requires c == |msg| / BLOCK_SIZE
    ensures c * 96 <= |msg| < c * 96 + BLOCK_SIZE && c * 96 % BLOCK_SIZE == 0
    ensures LongState(msg, seed1, seed2) ==
            End(Block(LastBlock(msg[c * 96..])), Absorb(Seeded(seed1, seed2), msg[..c * 96]))
  {
    hide Absorb, Block, LastBlock, Seeded, End;
    WholeBlocks(c);
  }

  lemma {:induction false} LastDataTells(h1: Words12, h2: Words12, t1: seq<byte>, t2: seq<byte>, k: nat)
    requires |t1| == |t2| < BLOCK_SIZE && ((h1 != h2 && t1 == t2) || (h1 == h2 && DifferAt(t1, t2, k)))
    ensures AddData(h1, Block(LastBlock(t1))) != AddData(h2, Block(LastBlock(t2)))
  {
    hide AddData, LastBlock, Block, DifferAt, WordsDifferAt;
    var d1, d2 := Block(LastBlock(t1)), Block(LastBlock(t2));
    if h1 == h2 {
      LastBlocksDiffer(t1, t2, k);
      BlocksDiffer(LastBlock(t1), LastBlock(t2), k);
      WordsDiffer(d1, d2, k);
      AddDataTells(h1, h2, d1, d2, k);
    } else {
      var j := WordThatDiffers(h1, h2);
      AddDataTells(h1, h2, d1, d2, j);
    }
  }

  lemma {:induction false} LongStateTells(m1: seq<byte>, m2: seq<byte>, k: nat, seed1: Word, seed2: Word)
    requires DifferAt(m1, m2, k)
    ensures LongState(m1, seed1, seed2) != LongState(m2, seed1, seed2)
  {
    assert |m1| == |m2|;
    hide LongState, End, AddData, LastBlock, Seeded, Block, Absorb, DifferAt, WordsDifferAt;
    var c := |m1| / BLOCK_SIZE;
    LongStateIs(m1, seed1, seed2, c);
    LongStateIs(m2, seed1, seed2, c);
    var n, w := c * 96, c * 12;
    var p1, p2, t1, t2 := m1[..n], m2[..n], m1[n..], m2[n..];
    LastBlockOrEarlier(m1, m2, k, c);
    var h1, h2 := Absorb(Seeded(seed1, seed2), p1), Absorb(Seeded(seed1, seed2), p2);
    if k < w {
      AbsorbTells(Seeded(seed1, seed2), p1, p2, k, c);
    }
    LastDataTells(h1, h2, t1, t2, if k < w then 0 else k - w);
    EndTells(Block(LastBlock(t1)), Block(LastBlock(t2)), h1, h2);
  }

  lemma {:induction false} WordsDiffer(s: seq<Word>, t: seq<Word>, k: nat)
    requires WordsDifferAt(s, t, k)
    ensures k < |s| && k < |t| && s[k] != t[k]
  {
  }

  lemma {:induction false} WordThatDiffers(s: seq<Word>, t: seq<Word>) returns (j: nat)
    requires |s| == |t| && s != t
    ensures j < |s| && s[j] != t[j]
  {
    j :| j < |s| && s[j] != t[j];
  }

  // ----- short messages ---------------------------------------------------------------------

  lemma {:induction false} ShortMixTells(g: Words4, h: Words4)
    requires g != h
    ensures ShortMix(g) != ShortMix(h)
  {
    hide ShortMix, UnShortMixRows;
    ShortMixIsAPermutation(g);
    ShortMixIsAPermutation(h);
  }

  lemma {:induction false} ShortEndTells(g: Words4, h: Words4)
    requires g != h
    ensures ShortEnd(g) != ShortEnd(h)
  {
    hide ShortEnd, UnShortEndRows;
    ShortEndIsAPermutation(g);
    ShortEndIsAPermutation(h);
  }

  /** Adding words to two of the four. */
  function AddTwo(h: Words4, i: nat, j: nat, x: Word, y: Word): Words4
    requires i < j < 4
  {
    h[i := Plus(h[i], x)][j := Plus(h[j], y)]
  }

  lemma {:induction false} AddTwoTells(g: Words4, h: Words4, i: nat, j: nat, x: Word, y: Word, u: Word, v: Word)
    requires i < j < 4
    requires (g != h && x == u && y == v) || (g == h && (x != u || y != v))
    ensures AddTwo(g, i, j, x, y) != AddTwo(h, i, j, u, v)
  {
    hide Plus;
    var a, b := AddTwo(g, i, j, x, y), AddTwo(h, i, j, u, v);
    if g == h {
      if x != u {
        PlusTells(x, u, g[i]);
        assert a[i] != b[i];
      } else {
        PlusTells(y, v, g[j]);
        assert a[j] != b[j];
      }
    } else {
      var k := WordThatDiffers(g, h);
      PlusTells(g[k], h[k], if k == i then x else y);
      assert a[k] != b[k];
    }
  }

  lemma {:induction false} ShortPairTells(g: Words4, h: Words4, s: seq<byte>, t: seq<byte>)
    requires |s| >= 16 && |t| >= 16
    requires var same := WordOf(s, 0) == WordOf(t, 0) && WordOf(s, 1) == WordOf(t, 1);
             (g != h && same) || (g == h && !same)
    ensures ShortPair(g, s) != ShortPair(h, t)
  {
    hide ShortMix, WordOf, Plus;
    AddTwoTells(g, h, 2, 3, WordOf(s, 0), WordOf(s, 1), WordOf(t, 0), WordOf(t, 1));
    ShortMixTells(AddTwo(g, 2, 3, WordOf(s, 0), WordOf(s, 1)), AddTwo(h, 2, 3, WordOf(t, 0), WordOf(t, 1)));
  }

  lemma {:induction false} ShortSetTells(g: Words4, h: Words4, s: seq<byte>, t: seq<byte>, k: nat)
    requires |s| == |t| == 32 && ((g != h && s == t) || (g == h && DifferAt(s, t, k)))
    ensures ShortSet(g, s) != ShortSet(h, t)
  {
    hide ShortPair, WordOf, Plus;
    if g == h {
      DifferWords(s, t, k, 0);
      DifferWords(s, t, k, 1);
      DifferWords(s, t, k, 2);
      DifferWords(s, t, k, 3);
    }
    if g != h || k < 2 {
      ShortPairTells(g, h, s, t);
    } else {
      SamePair(g, s, t);
    }
    AddTwoTells(ShortPair(g, s), ShortPair(h, t), 0, 1, WordOf(s, 2), WordOf(s, 3), WordOf(t, 2), WordOf(t, 3));
  }

  lemma {:induction false} SamePair(g: Words4, s: seq<byte>, t: seq<byte>)
    requires |s| >= 16 && |t| >= 16 && WordOf(s, 0) == WordOf(t, 0) && WordOf(s, 1) == WordOf(t, 1)
    ensures ShortPair(g, s) == ShortPair(g, t)
  {
    hide ShortMix, WordOf, Plus;
  }

  lemma {:induction false} ShortAbsorbLast(h: Words4, msg: seq<byte>)
    requires |msg| % 32 == 0 && msg != []
    ensures var n := |msg| - 32; ShortAbsorb(h, msg) == ShortSet(ShortAbsorb(h, msg[..n]), msg[n..])
  {
    hide ShortSet;
  }

  lemma {:induction false} ShortAbsorbTells(h: Words4, m1: seq<byte>, m2: seq<byte>, k: nat)
    requires DifferAt(m1, m2, k) && |m1| % 32 == 0
    ensures ShortAbsorb(h, m1) != ShortAbsorb(h, m2)
    decreases |m1|
  {
    assert |m1| == |m2| && m1 != [];
    hide ShortSet, ShortAbsorb, DifferAt;
    var n := |m1| - 32;
    var w := WholeWords(n);
    DifferEarlier(m1, m2, k, w);
    ShortAbsorbLast(h, m1);
    ShortAbsorbLast(h, m2);
    if k < w {
      ShortAbsorbTells(h, m1[..n], m2[..n], k);
    }
    ShortSetTells(ShortAbsorb(h, m1[..n]), ShortAbsorb(h, m2[..n]), m1[n..], m2[n..], if k < w then 0 else k - w);
  }

  lemma {:induction false} PadsDiffer(t1: seq<byte>, t2: seq<byte>, k: nat)
    requires DifferAt(t1, t2, k) && |t1| < 16
    ensures DifferAt(t1 + Zeros(16 - |t1|), t2 + Zeros(16 - |t2|), k)
  {
    var b1, b2 := t1 + Zeros(16 - |t1|), t2 + Zeros(16 - |t2|);
    assert b1[..|t1|] == t1 && b2[..|t2|] == t2;
  }

  function AddLength(h: Words4, length: nat): Words4 {
    h[3 := Plus(h[3], LengthWord(length))]
  }

  lemma {:induction false} AddLengthTells(g: Words4, h: Words4, length: nat)
    requires g != h
    ensures AddLength(g, length) != AddLength(h, length)
  {
    hide Plus, LengthWord;
    var j := WordThatDiffers(g, h);
    if j == 3 {
      PlusTells(g[3], h[3], LengthWord(length));
    }
    assert AddLength(g, length)[j] != AddLength(h, length)[j];
  }

  lemma {:induction false} ShortTailIs(h: Words4, tail: seq<byte>, length: nat)
    requires |tail| < 16
    ensures var s := tail + Zeros(16 - |tail|);
            ShortTail(h, tail, length) ==
            if tail == [] then AddTwo(AddLength(h, length), 2, 3, SC_CONST, SC_CONST)
            else AddTwo(AddLength(h, length), 2, 3, WordOf(s, 0), WordOf(s, 1))
  {
    hide WordOf, Plus, LengthWord;
  }

  lemma {:induction false} ShortTailTells(g: Words4, h: Words4, t1: seq<byte>, t2: seq<byte>, length: nat, k: nat)
    requires |t1| == |t2| < 16 && ((g != h && t1 == t2) || (g == h && DifferAt(t1, t2, k)))
    ensures ShortTail(g, t1, length) != ShortTail(h, t2, length)
  {
    hide WordOf, Plus, LengthWord, AddLength, AddTwo, ShortTail;
    ShortTailIs(g, t1, length);
    ShortTailIs(h, t2, length);
    var p, q := t1 + Zeros(16 - |t1|), t2 + Zeros(16 - |t2|);
    if g != h {
      AddLengthTells(g, h, length);
    } else {
      PadsDiffer(t1, t2, k);
      DifferWords(p, q, k, 0);
      DifferWords(p, q, k, 1);
    }
    if t1 == [] {
      AddTwoTells(AddLength(g, length), AddLength(h, length), 2, 3, SC_CONST, SC_CONST, SC_CONST, SC_CONST);
    } else {
      AddTwoTells(AddLength(g, length), AddLength(h, length), 2, 3, WordOf(p, 0), WordOf(p, 1), WordOf(q, 0),
                  WordOf(q, 1));
    }
  }

  lemma {:induction false} ShortHalfTells(g: Words4, h: Words4, r1: seq<byte>, r2: seq<byte>, k: nat)
    requires |r1| == |r2| && ((g != h && r1 == r2) || (g == h && DifferAt(r1, r2, k) && |r1| >= 16))
    ensures g != h ==> ShortHalf(g, r1) != ShortHalf(h, r2)
    ensures g == h ==> (ShortHalf(g, r1) == ShortHalf(h, r2) <==> k >= 2)
  {
    hide ShortPair, WordOf;
    if |r1| >= 16 {
      if g == h {
        DifferWords(r1, r2, k, 0);
        DifferWords(r1, r2, k, 1);
      }
      if g != h || k < 2 {
        ShortPairTells(g, h, r1, r2);
      } else {
        SamePair(g, r1, r2);
      }
    }
  }

  /** The half set and the tail, on the same state. */
  lemma {:induction false} RestTells(h: Words4, r1: seq<byte>, r2: seq<byte>, length: nat, k: nat)
    requires DifferAt(r1, r2, k) && |r1| < 32
    ensures var t := if |r1| < 16 then 0 else 16;
            ShortTail(ShortHalf(h, r1), r1[t..], length) != ShortTail(ShortHalf(h, r2), r2[t..], length)
  {
    hide ShortHalf, ShortTail;
    if |r1| < 16 {
      ShortHalfMeans(h, r1);
      ShortHalfMeans(h, r2);
      assert r1[0..] == r1 && r2[0..] == r2;
      ShortTailTells(h, h, r1, r2, length, k);
    } else {
      ShortHalfTells(h, h, r1, r2, k);
      DifferEarlier(r1, r2, k, 2);
      ShortTailTells(ShortHalf(h, r1), ShortHalf(h, r2), r1[16..], r2[16..], length, if k < 2 then 0 else k - 2);
    }
  }

  /** Where the half set and the tail of a message start. */
  lemma {:induction false} ShortParts(length: nat) returns (n: nat, t: nat)
    ensures n == length / 32 * 32 && t == length / 16 * 16 && n <= t <= length < t + 16
    ensures n % 32 == 0 && length - n < 32 && t - n == if length - n < 16 then 0 else 16
  {
    hide *;
    var k := length / 32;
    n, t := 32 * k, length / 16 * 16;
    Wholes(length, k);
  }

  lemma {:induction false} ShortStateIs(msg: seq<byte>, seed1: Word, seed2: Word, n: nat, t: nat)
    requires n == |msg| / 32 * 32 && t == |msg| / 16 * 16 && n % 32 == 0 && n <= t <= |msg| < t + 16
    ensures ShortState(msg, seed1, seed2) ==
            ShortEnd(ShortTail(ShortHalf(ShortAbsorb([seed1, seed2, SC_CONST, SC_CONST], msg[..n]), msg[n..]), msg[t..],
                               |msg|))
  {
    hide ShortAbsorb, ShortHalf, ShortTail, ShortEnd;
  }

  /** What is left of a message behind the whole sets, on a state that may differ already. */
  lemma {:induction false} BehindSetsTells(g: Words4, h: Words4, r1: seq<byte>, r2: seq<byte>, length: nat, k: nat)
    requires |r1| == |r2| < 32 && ((g != h && r1 == r2) || (g == h && DifferAt(r1, r2, k)))
    ensures var t := if |r1| < 16 then 0 else 16;
            ShortTail(ShortHalf(g, r1), r1[t..], length) != ShortTail(ShortHalf(h, r2), r2[t..], length)
  {
    hide *;
    var t := if |r1| < 16 then 0 else 16;
    if g == h {
      RestTells(g, r1, r2, length, k);
    } else {
      ShortHalfTells(g, h, r1, r2, 0);
      ShortTailTells(ShortHalf(g, r1), ShortHalf(h, r2), r1[t..], r2[t..], length, 0);
    }
  }

  lemma {:induction false} SetsTell(h0: Words4, m1: seq<byte>, m2: seq<byte>, k: nat, n: nat, w: nat)
    requires DifferAt(m1, m2, k) && n % 32 == 0 && n == 8 * w && n <= |m1|
    ensures |m1| == |m2|
    ensures var (g, h) := (ShortAbsorb(h0, m1[..n]), ShortAbsorb(h0, m2[..n]));
            (g != h && m1[n..] == m2[n..]) || (g == h && k >= w && DifferAt(m1[n..], m2[n..], k - w))
  {
    assert |m1| == |m2|;
    hide *;
    DifferEarlier(m1, m2, k, w);
    if k < w {
      ShortAbsorbTells(h0, m1[..n], m2[..n], k);
    }
  }

  lemma {:induction false} ShortStateTells(m1: seq<byte>, m2: seq<byte>, k: nat, seed1: Word, seed2: Word)
    requires DifferAt(m1, m2, k)
    ensures ShortState(m1, seed1, seed2) != ShortState(m2, seed1, seed2)
  {
    assert |m1| == |m2|;
    hide *;
    var n, t := ShortParts(|m1|);
    var w := WholeWords(n);
    var h0: Words4 := [seed1, seed2, SC_CONST, SC_CONST];
    var g, h := ShortAbsorb(h0, m1[..n]), ShortAbsorb(h0, m2[..n]);
    var r1, r2 := m1[n..], m2[n..];
    ShortStateIs(m1, seed1, seed2, n, t);
    ShortStateIs(m2, seed1, seed2, n, t);
    SetsTell(h0, m1, m2, k, n, w);
    BehindSetsTells(g, h, r1, r2, |m1|, if k < w then 0 else k - w);
    assert m1[t..] == r1[t - n..] && m2[t..] == r2[t - n..];
    ShortEndTells(ShortTail(ShortHalf(g, r1), m1[t..], |m1|), ShortTail(ShortHalf(h, r2), m2[t..], |m1|));
  }

  /** The words of the state that the hash is the first two of. */
  function StateOf(msg: seq<byte>, seed1: Word, seed2: Word): seq<Word> {
    if |msg| < BUF_SIZE then ShortState(msg, seed1, seed2) else LongState(msg, seed1, seed2)
  }

  lemma {:induction false} HashIsOfState(msg: seq<byte>, seed1: Word, seed2: Word)
    ensures var s := StateOf(msg, seed1, seed2); |s| >= 2 && Hash128(msg, seed1, seed2) == (s[0], s[1])
  {
    hide ShortState, LongState;
  }

  /** Messages of the same length that differ in one word, or in one byte, end with different states: every
      byte counts, until only two words of the state are kept. */
  lemma {:induction false} EveryWordCounts(m1: seq<byte>, m2: seq<byte>, k: nat, seed1: Word, seed2: Word)
    requires DifferAt(m1, m2, k)
    ensures StateOf(m1, seed1, seed2) != StateOf(m2, seed1, seed2)
  {
    hide ShortState, LongState;
    ShortStateTells(m1, m2, k, seed1, seed2);
    LongStateTells(m1, m2, k, seed1, seed2);
  }
}
