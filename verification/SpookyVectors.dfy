/**
 SpookyHash of known messages: the bytes 128, 129, 130, ... (modulo 256), with both seeds 0.  They fix the
 constants, the rotations and the order of everything that is computed.
*/
module SpookyVectors {

  import opened Arithmetic
  import opened Wrappers
  import opened SpookyMix
  import opened SpookyHashes
  import opened SpookyTells

  function Buf(n: nat): (s: seq<byte>)
    ensures |s| == n
  {
    seq(n, i => ((i + 128) % 256) as byte)
  }

  function ByteFrom(i: nat): byte { (i + 128) % 256 }

  /** Eight bytes in a row count up without wrapping. */
  lemma {:induction false} ByteInTurn(i: nat, v: nat, j: nat)
    requires v == (8 * i + 128) % 256 && j < 8
    ensures v + j < 256 && ByteFrom(8 * i + j) == v + j
  {
    var q := (8 * i + 128) / 256;
    assert 8 * i + 128 == 256 * q + v;
    assert v == 8 * (i + 16 - 32 * q);
    ModOf(q, 256, v + j);
  }

  lemma {:induction false} ToNumberAndBack(x: Word)
    ensures (x as nat) as Word == x
  {
  }

  lemma {:induction false} SameNumber(x: Word, y: Word)
    requires x as nat == y as nat
    ensures x == y
  {
    ToNumberAndBack(x);
    ToNumberAndBack(y);
  }

  /** The word of bytes that count up from `v`. */
  lemma {:induction false} WordCountsUp(n: nat, i: nat, v: nat)
    requires 8 * i + 8 <= n && v == (8 * i + 128) % 256
    ensures WordOf(Buf(n), i) as nat ==
            v + 0x100 * (v + 1) + 0x1_0000 * (v + 2) + 0x100_0000 * (v + 3) + 0x1_0000_0000 * (v + 4) +
            0x100_0000_0000 * (v + 5) + 0x1_0000_0000_0000 * (v + 6) + 0x100_0000_0000_0000 * (v + 7)
  {
    hide *;
    var s := Buf(n)[8 * i..8 * i + 8];
    BytesOfBuf(n, i, v);
    EightBytesValue(s);
    WordOfSlice(Buf(n), i);
  }

  lemma {:induction false} WordOfSlice(msg: seq<byte>, i: nat)
    requires 8 * i + 8 <= |msg|
    ensures WordOf(msg, i) == Word64(msg[8 * i..8 * i + 8])
  {
    hide Word64;
  }

  lemma {:induction false} BytesOfBuf(n: nat, i: nat, v: nat)
    requires 8 * i + 8 <= n && v == (8 * i + 128) % 256
    ensures var s := Buf(n)[8 * i..8 * i + 8];
            && s[0] == v && s[1] == v + 1 && s[2] == v + 2 && s[3] == v + 3
            && s[4] == v + 4 && s[5] == v + 5 && s[6] == v + 6 && s[7] == v + 7
  {
    hide ByteFrom, Buf;
    var s := Buf(n)[8 * i..8 * i + 8];
    forall j | 0 <= j < 8 ensures s[j] == v + j {
      ByteInTurn(i, v, j);
      ByteOfBuf(n, 8 * i + j);
    }
  }

  lemma {:induction false} ByteOfBuf(n: nat, i: nat)
    requires i < n
    ensures Buf(n)[i] == ByteFrom(i)
  {
  }

  lemma {:induction false} KnownWord(n: nat, i: nat, v: nat, x: Word)
    requires 8 * i + 8 <= n && v == (8 * i + 128) % 256
    requires x as nat ==
             v + 0x100 * (v + 1) + 0x1_0000 * (v + 2) + 0x100_0000 * (v + 3) + 0x1_0000_0000 * (v + 4) +
             0x100_0000_0000 * (v + 5) + 0x1_0000_0000_0000 * (v + 6) + 0x100_0000_0000_0000 * (v + 7)
    ensures WordOf(Buf(n), i) == x
  {
    hide *;
    WordCountsUp(n, i, v);
    SameNumber(WordOf(Buf(n), i), x);
  }

  ghost predicate Four(h: Words4, a: Word, b: Word, c: Word, d: Word) {
    h[0] == a && h[1] == b && h[2] == c && h[3] == d
  }

  ghost predicate Twelve(h: Words12, s0: Word, s1: Word, s2: Word, s3: Word, s4: Word, s5: Word, s6: Word, s7: Word,
                         s8: Word, s9: Word, s10: Word, s11: Word) {
    && h[0] == s0 && h[1] == s1 && h[2] == s2 && h[3] == s3 && h[4] == s4 && h[5] == s5
    && h[6] == s6 && h[7] == s7 && h[8] == s8 && h[9] == s9 && h[10] == s10 && h[11] == s11
  }

  // ----- one line at a time -----------------------------------------------------------------

  lemma {:induction false} MixRots()
    ensures MIX_ROT[0] == 11 && MIX_ROT[1] == 32 && MIX_ROT[2] == 43 && MIX_ROT[3] == 31 && MIX_ROT[4] == 17
    ensures MIX_ROT[5] == 28 && MIX_ROT[6] == 39 && MIX_ROT[7] == 57 && MIX_ROT[8] == 55 && MIX_ROT[9] == 54
    ensures MIX_ROT[10] == 22 && MIX_ROT[11] == 46
  {
  }

  lemma {:induction false} EndRots()
    ensures END_ROT[0] == 44 && END_ROT[1] == 15 && END_ROT[2] == 34 && END_ROT[3] == 21 && END_ROT[4] == 38
    ensures END_ROT[5] == 33 && END_ROT[6] == 10 && END_ROT[7] == 13 && END_ROT[8] == 38 && END_ROT[9] == 53
    ensures END_ROT[10] == 42 && END_ROT[11] == 54
  {
  }

  lemma {:induction false} ShortMixRots()
    ensures SHORT_MIX_ROT[0] == 50 && SHORT_MIX_ROT[1] == 52 && SHORT_MIX_ROT[2] == 30 && SHORT_MIX_ROT[3] == 41
    ensures SHORT_MIX_ROT[4] == 54 && SHORT_MIX_ROT[5] == 48 && SHORT_MIX_ROT[6] == 38 && SHORT_MIX_ROT[7] == 37
    ensures SHORT_MIX_ROT[8] == 62 && SHORT_MIX_ROT[9] == 34 && SHORT_MIX_ROT[10] == 5 && SHORT_MIX_ROT[11] == 36
  {
  }

  lemma {:induction false} ShortEndRots()
    ensures SHORT_END_ROT[0] == 15 && SHORT_END_ROT[1] == 52 && SHORT_END_ROT[2] == 26 && SHORT_END_ROT[3] == 51
    ensures SHORT_END_ROT[4] == 28 && SHORT_END_ROT[5] == 9 && SHORT_END_ROT[6] == 47 && SHORT_END_ROT[7] == 54
    ensures SHORT_END_ROT[8] == 32 && SHORT_END_ROT[9] == 25 && SHORT_END_ROT[10] == 63
  {
  }

  // ----- six lines, or all of a short round ---------------------------------------------------

  lemma {:induction false} SixMixLines(h: Words12, data: Words12, s: nat, g0: Words12, g1: Words12, g2: Words12,
                                       g3: Words12, g4: Words12, g5: Words12, g6: Words12)
    requires s <= 6 && g0 == MixRows(h, data, s)
    requires g1 == MixRow(g0, s, data[s], MIX_ROT[s]) && g2 == MixRow(g1, s + 1, data[s + 1], MIX_ROT[s + 1])
    requires g3 == MixRow(g2, s + 2, data[s + 2], MIX_ROT[s + 2])
    requires g4 == MixRow(g3, s + 3, data[s + 3], MIX_ROT[s + 3])
    requires g5 == MixRow(g4, s + 4, data[s + 4], MIX_ROT[s + 4])
    requires g6 == MixRow(g5, s + 5, data[s + 5], MIX_ROT[s + 5])
    ensures g6 == MixRows(h, data, s + 6)
  {
    hide MixRow, MIX_ROT, MixRows;
    MixLineOf(h, data, s);
    MixLineOf(h, data, s + 1);
    MixLineOf(h, data, s + 2);
    MixLineOf(h, data, s + 3);
    MixLineOf(h, data, s + 4);
    MixLineOf(h, data, s + 5);
  }

  lemma {:induction false} MixLineOf(h: Words12, data: Words12, i: nat)
    requires i < 12
    ensures MixRows(h, data, i + 1) == MixRow(MixRows(h, data, i), i, data[i], MIX_ROT[i])
  {
    hide MixRow, MIX_ROT;
  }

  lemma {:induction false} SixEndLines(h: Words12, s: nat, g0: Words12, g1: Words12, g2: Words12, g3: Words12,
                                       g4: Words12, g5: Words12, g6: Words12)
    requires s <= 6 && g0 == EndRows(h, s)
    requires g1 == EndRow(g0, s, END_ROT[s]) && g2 == EndRow(g1, s + 1, END_ROT[s + 1])
    requires g3 == EndRow(g2, s + 2, END_ROT[s + 2]) && g4 == EndRow(g3, s + 3, END_ROT[s + 3])
    requires g5 == EndRow(g4, s + 4, END_ROT[s + 4]) && g6 == EndRow(g5, s + 5, END_ROT[s + 5])
    ensures g6 == EndRows(h, s + 6)
  {
    hide EndRow, END_ROT, EndRows;
    EndLineOf(h, s);
    EndLineOf(h, s + 1);
    EndLineOf(h, s + 2);
    EndLineOf(h, s + 3);
    EndLineOf(h, s + 4);
    EndLineOf(h, s + 5);
  }

  lemma {:induction false} EndLineOf(h: Words12, i: nat)
    requires i < 12
    ensures EndRows(h, i + 1) == EndRow(EndRows(h, i), i, END_ROT[i])
  {
    hide EndRow, END_ROT;
  }

  lemma {:induction false} FourMixLines(h: Words4, s: nat, g0: Words4, g1: Words4, g2: Words4, g3: Words4, g4: Words4)
    requires s <= 8 && g0 == ShortMixRows(h, s)
    requires g1 == ShortMixRow(g0, s, SHORT_MIX_ROT[s]) && g2 == ShortMixRow(g1, s + 1, SHORT_MIX_ROT[s + 1])
    requires g3 == ShortMixRow(g2, s + 2, SHORT_MIX_ROT[s + 2]) && g4 == ShortMixRow(g3, s + 3, SHORT_MIX_ROT[s + 3])
    ensures g4 == ShortMixRows(h, s + 4)
  {
    hide ShortMixRow, SHORT_MIX_ROT, ShortMixRows;
    ShortMixLineOf(h, s);
    ShortMixLineOf(h, s + 1);
    ShortMixLineOf(h, s + 2);
    ShortMixLineOf(h, s + 3);
  }

  lemma {:induction false} ShortMixLineOf(h: Words4, i: nat)
    requires i < 12
    ensures ShortMixRows(h, i + 1) == ShortMixRow(ShortMixRows(h, i), i, SHORT_MIX_ROT[i])
  {
    hide ShortMixRow, SHORT_MIX_ROT;
  }

  lemma {:induction false} ElevenEndLines(h: Words4, g1: Words4, g2: Words4, g3: Words4, g4: Words4, g5: Words4,
                                          g6: Words4, g7: Words4, g8: Words4, g9: Words4, g10: Words4, g11: Words4)
    requires g1 == ShortEndRow(h, 0, 15) && g2 == ShortEndRow(g1, 1, 52) && g3 == ShortEndRow(g2, 2, 26)
    requires g4 == ShortEndRow(g3, 3, 51) && g5 == ShortEndRow(g4, 4, 28) && g6 == ShortEndRow(g5, 5, 9)
    requires g7 == ShortEndRow(g6, 6, 47) && g8 == ShortEndRow(g7, 7, 54) && g9 == ShortEndRow(g8, 8, 32)
    requires g10 == ShortEndRow(g9, 9, 25) && g11 == ShortEndRow(g10, 10, 63)
    ensures ShortEnd(h) == g11
  {
    ShortEndRots();
    hide ShortEndRow, SHORT_END_ROT, ShortEndRows;
    NoShortEndLine(h);
    ShortEndLineOf(h, 0);
    ShortEndLineOf(h, 1);
    ShortEndLineOf(h, 2);
    ShortEndLineOf(h, 3);
    ShortEndLineOf(h, 4);
    ShortEndLineOf(h, 5);
    ShortEndLineOf(h, 6);
    ShortEndLineOf(h, 7);
    ShortEndLineOf(h, 8);
    ShortEndLineOf(h, 9);
    ShortEndLineOf(h, 10);
  }

  lemma {:induction false} NoShortEndLine(h: Words4)
    ensures ShortEndRows(h, 0) == h
  {
  }

  lemma {:induction false} ShortEndLineOf(h: Words4, i: nat)
    requires i < 11
    ensures ShortEndRows(h, i + 1) == ShortEndRow(ShortEndRows(h, i), i, SHORT_END_ROT[i])
  {
    hide ShortEndRow, SHORT_END_ROT;
  }

  // ----- the words of the messages -----------------------------------------------------------

  lemma {:induction false} Words0(n: nat)
    requires n >= 40
    ensures WordOf(Buf(n), 0) == 0x8786858483828180
    ensures WordOf(Buf(n), 1) == 0x8f8e8d8c8b8a8988
    ensures WordOf(Buf(n), 2) == 0x9796959493929190
    ensures WordOf(Buf(n), 3) == 0x9f9e9d9c9b9a9998
    ensures WordOf(Buf(n), 4) == 0xa7a6a5a4a3a2a1a0
  {
    hide WordOf;
    KnownWord(n, 0, 128, 0x8786858483828180);
    KnownWord(n, 1, 136, 0x8f8e8d8c8b8a8988);
    KnownWord(n, 2, 144, 0x9796959493929190);
    KnownWord(n, 3, 152, 0x9f9e9d9c9b9a9998);
    KnownWord(n, 4, 160, 0xa7a6a5a4a3a2a1a0);
  }

  lemma {:induction false} Words1(n: nat)
    requires n >= 80
    ensures WordOf(Buf(n), 5) == 0xafaeadacabaaa9a8
    ensures WordOf(Buf(n), 6) == 0xb7b6b5b4b3b2b1b0
    ensures WordOf(Buf(n), 7) == 0xbfbebdbcbbbab9b8
    ensures WordOf(Buf(n), 8) == 0xc7c6c5c4c3c2c1c0
    ensures WordOf(Buf(n), 9) == 0xcfcecdcccbcac9c8
  {
    hide WordOf;
    KnownWord(n, 5, 168, 0xafaeadacabaaa9a8);
    KnownWord(n, 6, 176, 0xb7b6b5b4b3b2b1b0);
    KnownWord(n, 7, 184, 0xbfbebdbcbbbab9b8);
    KnownWord(n, 8, 192, 0xc7c6c5c4c3c2c1c0);
    KnownWord(n, 9, 200, 0xcfcecdcccbcac9c8);
  }

  lemma {:induction false} Words2(n: nat)
    requires n >= 120
    ensures WordOf(Buf(n), 10) == 0xd7d6d5d4d3d2d1d0
    ensures WordOf(Buf(n), 11) == 0xdfdedddcdbdad9d8
    ensures WordOf(Buf(n), 12) == 0xe7e6e5e4e3e2e1e0
    ensures WordOf(Buf(n), 13) == 0xefeeedecebeae9e8
    ensures WordOf(Buf(n), 14) == 0xf7f6f5f4f3f2f1f0
  {
    hide WordOf;
    KnownWord(n, 10, 208, 0xd7d6d5d4d3d2d1d0);
    KnownWord(n, 11, 216, 0xdfdedddcdbdad9d8);
    KnownWord(n, 12, 224, 0xe7e6e5e4e3e2e1e0);
    KnownWord(n, 13, 232, 0xefeeedecebeae9e8);
    KnownWord(n, 14, 240, 0xf7f6f5f4f3f2f1f0);
  }

  lemma {:induction false} Words3(n: nat)
    requires n >= 160
    ensures WordOf(Buf(n), 15) == 0xfffefdfcfbfaf9f8
    ensures WordOf(Buf(n), 16) == 0x0706050403020100
    ensures WordOf(Buf(n), 17) == 0x0f0e0d0c0b0a0908
    ensures WordOf(Buf(n), 18) == 0x1716151413121110
    ensures WordOf(Buf(n), 19) == 0x1f1e1d1c1b1a1918
  {
    hide WordOf;
    KnownWord(n, 15, 248, 0xfffefdfcfbfaf9f8);
    KnownWord(n, 16, 0, 0x0706050403020100);
    KnownWord(n, 17, 8, 0x0f0e0d0c0b0a0908);
    KnownWord(n, 18, 16, 0x1716151413121110);
    KnownWord(n, 19, 24, 0x1f1e1d1c1b1a1918);
  }

  lemma {:induction false} Words4(n: nat)
    requires n >= 200
    ensures WordOf(Buf(n), 20) == 0x2726252423222120
    ensures WordOf(Buf(n), 21) == 0x2f2e2d2c2b2a2928
    ensures WordOf(Buf(n), 22) == 0x3736353433323130
    ensures WordOf(Buf(n), 23) == 0x3f3e3d3c3b3a3938
    ensures WordOf(Buf(n), 24) == 0x4746454443424140
  {
    hide WordOf;
    KnownWord(n, 20, 32, 0x2726252423222120);
    KnownWord(n, 21, 40, 0x2f2e2d2c2b2a2928);
    KnownWord(n, 22, 48, 0x3736353433323130);
    KnownWord(n, 23, 56, 0x3f3e3d3c3b3a3938);
    KnownWord(n, 24, 64, 0x4746454443424140);
  }

  // ----- no bytes ---------------------------------------------------------------------------

  lemma {:induction false} EmptyEndA(g0: Words4)
    returns (g1: Words4, g2: Words4, g3: Words4, g4: Words4, g5: Words4, g6: Words4, g7: Words4, g8: Words4,
             g9: Words4, g10: Words4, g11: Words4)
    requires Four(g0, 0x0000000000000000, 0x0000000000000000, 0xbd5b7ddfbd5b7dde, 0xbd5b7ddfbd5b7dde)
    ensures g1 == ShortEndRow(g0, 0, 15) && g2 == ShortEndRow(g1, 1, 52) && g3 == ShortEndRow(g2, 2, 26)
    ensures g4 == ShortEndRow(g3, 3, 51) && g5 == ShortEndRow(g4, 4, 28) && g6 == ShortEndRow(g5, 5, 9)
    ensures g7 == ShortEndRow(g6, 6, 47) && g8 == ShortEndRow(g7, 7, 54) && g9 == ShortEndRow(g8, 8, 32)
    ensures g10 == ShortEndRow(g9, 9, 25) && g11 == ShortEndRow(g10, 10, 63)
    ensures Four(g11, 0x232706fc6bf50919, 0x8b72ee65b4e851c7, 0x88d8e9628fb694ae, 0x015c99660e766a98)
  {
    g1 := ShortEndRow(g0, 0, 15);
    assert Four(g1, 0x0000000000000000, 0x0000000000000000, 0xbeefdeadbeef5ead, 0xbeefdeadbeef5ead);
    g2 := ShortEndRow(g1, 1, 52);
    assert Four(g2, 0xa9cbcdaba9cb4da2, 0x0000000000000000, 0xbeefdeadbeef5ead, 0xeadbeefdeadbeef5);
    g3 := ShortEndRow(g2, 2, 26);
    assert Four(g3, 0xaea72d368aa72f36, 0x5872fae234727cd8, 0xbeefdeadbeef5ead, 0xeadbeefdeadbeef5);
    g4 := ShortEndRow(g3, 3, 51);
    assert Four(g4, 0xaea72d368aa72f36, 0xe6c2c397d711a393, 0xcd5fe7e761aec608, 0xeadbeefdeadbeef5);
    g5 := ShortEndRow(g4, 4, 28);
    assert Four(g5, 0xaea72d368aa72f36, 0xe6c2c397d711a393, 0x761aec608cd5fe7e, 0x9d9ef57b184b277b);
    g6 := ShortEndRow(g5, 5, 9);
    assert Four(g6, 0x7124ce7e293aff88, 0xe6c2c397d711a393, 0x761aec608cd5fe7e, 0x3deaf630964ef73b);
    g7 := ShortEndRow(g6, 6, 47);
    assert Four(g7, 0x7fc43892673f149d, 0x17aa467c656a70b8, 0x761aec608cd5fe7e, 0x3deaf630964ef73b);
    g8 := ShortEndRow(g7, 7, 54);
    assert Four(g8, 0x7fc43892673f149d, 0x2e05ea919f195a9c, 0x8fb694ae88d8e962, 0x3deaf630964ef73b);
    g9 := ShortEndRow(g8, 8, 32);
    assert Four(g9, 0x7fc43892673f149d, 0x2e05ea919f195a9c, 0x88d8e9628fb694ae, 0x3b354c00ae4cb307);
    g10 := ShortEndRow(g9, 9, 25);
    assert Four(g10, 0x464e0df8d7ea1232, 0x2e05ea919f195a9c, 0x88d8e9628fb694ae, 0x015c99660e766a98);
    g11 := ShortEndRow(g10, 10, 63);
  }

  // ----- one byte ---------------------------------------------------------------------------

  lemma {:induction false} OneEndA(g0: Words4)
    returns (g1: Words4, g2: Words4, g3: Words4, g4: Words4, g5: Words4, g6: Words4, g7: Words4, g8: Words4,
             g9: Words4, g10: Words4, g11: Words4)
    requires Four(g0, 0x0000000000000000, 0x0000000000000000, 0xdeadbeefdeadbf6f, 0xdfadbeefdeadbeef)
    ensures g1 == ShortEndRow(g0, 0, 15) && g2 == ShortEndRow(g1, 1, 52) && g3 == ShortEndRow(g2, 2, 26)
    ensures g4 == ShortEndRow(g3, 3, 51) && g5 == ShortEndRow(g4, 4, 28) && g6 == ShortEndRow(g5, 5, 9)
    ensures g7 == ShortEndRow(g6, 6, 47) && g8 == ShortEndRow(g7, 7, 54) && g9 == ShortEndRow(g8, 8, 32)
    ensures g10 == ShortEndRow(g9, 9, 25) && g11 == ShortEndRow(g10, 10, 63)
    ensures Four(g11, 0xa3bf77d970de1d26, 0x7585c07813503b1b, 0x56f042981b9f3356, 0x86b8a57ff105fa15)
  {
    g1 := ShortEndRow(g0, 0, 15);
    assert Four(g1, 0x0000000000000000, 0x0000000000000000, 0xdf77ef56dfb7ef56, 0xe077ef56dfb7f0d6);
    g2 := ShortEndRow(g1, 1, 52);
    assert Four(g2, 0xede5f6d5d525ec55, 0x0000000000000000, 0xdf77ef56dfb7ef56, 0x0d6e077ef56dfb7f);
    g3 := ShortEndRow(g2, 2, 26);
    assert Four(g3, 0x575497b157b797db, 0x453a8e872cdd8430, 0xdf77ef56dfb7ef56, 0x0d6e077ef56dfb7f);
    g4 := ShortEndRow(g3, 3, 51);
    assert Four(g4, 0x575497b157b797db, 0x218229d4743966ec, 0xbbcf8ba667a3d252, 0x0d6e077ef56dfb7f);
    g5 := ShortEndRow(g4, 4, 28);
    assert Four(g5, 0x575497b157b797db, 0x218229d4743966ec, 0x667a3d252bbcf8ba, 0x1d1bc9fdbe8b21e7);
    g6 := ShortEndRow(g5, 5, 9);
    assert Four(g6, 0x81e359c9ff808476, 0x218229d4743966ec, 0x667a3d252bbcf8ba, 0x3793fb7d1643ce3a);
    g7 := ShortEndRow(g6, 6, 47);
    assert Four(g7, 0x423b40f1ace4ffc0, 0xe29cb10f389ee25a, 0x667a3d252bbcf8ba, 0x3793fb7d1643ce3a);
    g8 := ShortEndRow(g7, 7, 54);
    assert Four(g8, 0x423b40f1ace4ffc0, 0x96b8a72c43ce27b8, 0x1b9f335656f04298, 0x3793fb7d1643ce3a);
    g9 := ShortEndRow(g8, 8, 32);
    assert Four(g9, 0x423b40f1ace4ffc0, 0x96b8a72c43ce27b8, 0x56f042981b9f3356, 0x82fd0ac35c52bff8);
    g10 := ShortEndRow(g9, 9, 25);
    assert Four(g10, 0x477eefb2e1bc3a4d, 0x96b8a72c43ce27b8, 0x56f042981b9f3356, 0x86b8a57ff105fa15);
    g11 := ShortEndRow(g10, 10, 63);
  }

  // ----- forty bytes ------------------------------------------------------------------------

  lemma {:induction false} FortyMixA(g0: Words4)
    returns (g1: Words4, g2: Words4, g3: Words4, g4: Words4, g5: Words4, g6: Words4, g7: Words4, g8: Words4,
             g9: Words4, g10: Words4, g11: Words4, g12: Words4)
    requires Four(g0, 0x0000000000000000, 0x0000000000000000, 0x663444746230406f, 0x6e3c4c7c6a384877)
    ensures g1 == ShortMixRow(g0, 0, 50) && g2 == ShortMixRow(g1, 1, 52) && g3 == ShortMixRow(g2, 2, 30)
    ensures g4 == ShortMixRow(g3, 3, 41) && g5 == ShortMixRow(g4, 4, 54) && g6 == ShortMixRow(g5, 5, 48)
    ensures g7 == ShortMixRow(g6, 6, 38) && g8 == ShortMixRow(g7, 7, 37) && g9 == ShortMixRow(g8, 8, 62)
    ensures g10 == ShortMixRow(g9, 9, 34) && g11 == ShortMixRow(g10, 10, 5) && g12 == ShortMixRow(g11, 11, 36)
    ensures Four(g12, 0x615aa19d5af14493, 0x36bb6c130a2c90b3, 0xe1c5cb2010be3c1b, 0xf320ece44f4bbf1e)
  {
    g1 := ShortMixRow(g0, 0, 50);
    assert Four(g1, 0x6ff9e54d7c09d138, 0x0000000000000000, 0x6ff9e54d7c09d138, 0x6e3c4c7c6a384877);
    g2 := ShortMixRow(g1, 1, 52);
    assert Four(g2, 0x6ff9e54d7c09d138, 0xf770c91243d074bc, 0x6ff9e54d7c09d138, 0xf770c91243d074bc);
    g3 := ShortMixRow(g2, 2, 30);
    assert Four(g3, 0x56733d605fceee0f, 0xf770c91243d074bc, 0x398ad82d23c73f37, 0xf770c91243d074bc);
    g4 := ShortMixRow(g3, 3, 41);
    assert Four(g4, 0x56733d605fceee0f, 0xda74521c055963be, 0x398ad82d23c73f37, 0x2d049b0e46891702);
    g5 := ShortMixRow(g4, 4, 54);
    assert Four(g5, 0xaca1c0a40e1ce6de, 0xda74521c055963be, 0xfad2fdc451d208d1, 0x2d049b0e46891702);
    g6 := ShortMixRow(g5, 5, 48);
    assert Four(g6, 0xaca1c0a40e1ce6de, 0x19d7bfb4ac724ed9, 0xfad2fdc451d208d1, 0xc3a3eda8a92b2d67);
    g7 := ShortMixRow(g6, 6, 38);
    assert Four(g7, 0xa111775fd4e277dc, 0x19d7bfb4ac724ed9, 0x5bc38a9b85307f0d, 0xc3a3eda8a92b2d67);
    g8 := ShortMixRow(g7, 7, 37);
    assert Four(g8, 0xa111775fd4e277dc, 0xea0d65bec02875a2, 0x5bc38a9b85307f0d, 0x29ae8816690358c5);
    g9 := ShortMixRow(g8, 8, 62);
    assert Four(g9, 0x218e1de29ead0f54, 0xea0d65bec02875a2, 0x809f6abd4a4f7888, 0x29ae8816690358c5);
    g10 := ShortMixRow(g9, 9, 34);
    assert Four(g10, 0x218e1de29ead0f54, 0x2f96e549854f5a0f, 0x809f6abd4a4f7888, 0xc59b80f745672fad);
    g11 := ShortMixRow(g10, 10, 5);
    assert Four(g11, 0x615aa19d5af14493, 0x2f96e549854f5a0f, 0xe1c5cb2010be3c1b, 0xc59b80f745672fad);
    g12 := ShortMixRow(g11, 11, 36);
  }

  lemma {:induction false} FortyEndA(g0: Words4)
    returns (g1: Words4, g2: Words4, g3: Words4, g4: Words4, g5: Words4, g6: Words4, g7: Words4, g8: Words4,
             g9: Words4, g10: Words4, g11: Words4)
    requires Four(g0, 0xf8f13731ee83d623, 0xd65a09afa5c72a4b, 0x896c70c4b460ddbb, 0x1b20ece44f4bbf1e)
    ensures g1 == ShortEndRow(g0, 0, 15) && g2 == ShortEndRow(g1, 1, 52) && g3 == ShortEndRow(g2, 2, 26)
    ensures g4 == ShortEndRow(g3, 3, 51) && g5 == ShortEndRow(g4, 4, 28) && g6 == ShortEndRow(g5, 5, 9)
    ensures g7 == ShortEndRow(g6, 6, 47) && g8 == ShortEndRow(g7, 7, 54) && g9 == ShortEndRow(g8, 8, 32)
    ensures g10 == ShortEndRow(g9, 9, 25) && g11 == ShortEndRow(g10, 10, 63)
    ensures Four(g11, 0xe17837629856c65f, 0x397ba3ad34a52e08, 0xffe1fb52d6aed773, 0xb043e09baa8a7e27)
  {
    g1 := ShortEndRow(g0, 0, 15);
    assert Four(g1, 0xf8f13731ee83d623, 0xd65a09afa5c72a4b, 0x38625a306eddc4b6, 0xcaaef6516a09275b);
    g2 := ShortEndRow(g1, 1, 52);
    assert Four(g2, 0xa81c6c4fe9a1920a, 0xd65a09afa5c72a4b, 0x38625a306eddc4b6, 0x75bcaaef6516a092);
    g3 := ShortEndRow(g2, 2, 26);
    assert Four(g3, 0x3fa686482aa071b1, 0xbdecec28770729f2, 0x38625a306eddc4b6, 0x75bcaaef6516a092);
    g4 := ShortEndRow(g3, 3, 51);
    assert Four(g4, 0x3fa686482aa071b1, 0x4f95ef676143b839, 0xd524a57f7b1ea57d, 0x75bcaaef6516a092);
    g5 := ShortEndRow(g4, 4, 28);
    assert Four(g5, 0x3fa686482aa071b1, 0x4f95ef676143b839, 0xf7b1ea57dd524a57, 0x9849f9e7fb5a5046);
    g6 := ShortEndRow(g5, 5, 9);
    assert Four(g6, 0x3be34fa6869aaf27, 0x4f95ef676143b839, 0xf7b1ea57dd524a57, 0x93f3cff6b4a08d30);
    g7 := ShortEndRow(g6, 6, 47);
    assert Four(g7, 0x57939df1a7d3434d, 0xcc0a3eb38fac5a6b, 0xf7b1ea57dd524a57, 0x93f3cff6b4a08d30);
    g8 := ShortEndRow(g7, 7, 54);
    assert Four(g8, 0x57939df1a7d3434d, 0x9af3028face3eb16, 0xd6aed773ffe1fb52, 0x93f3cff6b4a08d30);
    g9 := ShortEndRow(g8, 8, 32);
    assert Four(g9, 0x57939df1a7d3434d, 0x9af3028face3eb16, 0xffe1fb52d6aed773, 0x453f13d821f04dd5);
    g10 := ShortEndRow(g9, 9, 25);
    assert Four(g10, 0xc2f06ec530ad8cbf, 0x9af3028face3eb16, 0xffe1fb52d6aed773, 0xb043e09baa8a7e27);
    g11 := ShortEndRow(g10, 10, 63);
  }

  // ----- two hundred bytes -------------------------------------------------------------------

  lemma {:induction false} FirstMixA(g0: Words12)
    returns (g1: Words12, g2: Words12, g3: Words12, g4: Words12, g5: Words12, g6: Words12)
    requires Twelve(g0, 0x0000000000000000, 0x0000000000000000, 0xdeadbeefdeadbeef, 0x0000000000000000,
                        0x0000000000000000, 0xdeadbeefdeadbeef, 0x0000000000000000, 0x0000000000000000,
                        0xdeadbeefdeadbeef, 0x0000000000000000, 0x0000000000000000, 0xdeadbeefdeadbeef)
    ensures g1 == MixRow(g0, 0, 0x8786858483828180, 11) && g2 == MixRow(g1, 1, 0x8f8e8d8c8b8a8988, 32)
    ensures g3 == MixRow(g2, 2, 0x9796959493929190, 43) && g4 == MixRow(g3, 3, 0x9f9e9d9c9b9a9998, 31)
    ensures g5 == MixRow(g4, 4, 0xa7a6a5a4a3a2a1a0, 17) && g6 == MixRow(g5, 5, 0xafaeadacabaaa9a8, 28)
    ensures Twelve(g6, 0x9a5068807e344ca3, 0x56fa18785afe1d62, 0x949a8b3658a24738, 0x45eb893e6205a64d,
                       0xb8e6a3204c1b1613, 0x42ffe4d353806544, 0x949a8b3658a24738, 0x45eb893e6205a64d,
                       0xdeadbeefdeadbeef, 0x0000000000000000, 0x0000000000000000, 0x592b3b6b5d2f3f6f)
  {
    g1 := MixRow(g0, 0, 0x8786858483828180, 11);
    assert Twelve(g1, 0x342c241c140c043c, 0x0000000000000000, 0xdeadbeefdeadbeef, 0x0000000000000000,
                      0x0000000000000000, 0xdeadbeefdeadbeef, 0x0000000000000000, 0x0000000000000000,
                      0xdeadbeefdeadbeef, 0x0000000000000000, 0x0000000000000000, 0x592b3b6b5d2f3f6f);
    g2 := MixRow(g1, 1, 0x8f8e8d8c8b8a8988, 32);
    assert Twelve(g2, 0x9a5068807e344ca3, 0x8b8a89888f8e8d8c, 0xdeadbeefdeadbeef, 0x592b3b6b5d2f3f6f,
                      0x0000000000000000, 0xdeadbeefdeadbeef, 0x0000000000000000, 0x0000000000000000,
                      0xdeadbeefdeadbeef, 0x0000000000000000, 0x0000000000000000, 0x592b3b6b5d2f3f6f);
    g3 := MixRow(g2, 2, 0x9796959493929190, 43);
    assert Twelve(g3, 0x9a5068807e344ca3, 0x56fa18785afe1d62, 0x0283fbb222a42392, 0x592b3b6b5d2f3f6f,
                      0x9a5068807e344ca3, 0xdeadbeefdeadbeef, 0x0000000000000000, 0x0000000000000000,
                      0xdeadbeefdeadbeef, 0x0000000000000000, 0x0000000000000000, 0x592b3b6b5d2f3f6f);
    g4 := MixRow(g3, 3, 0x9f9e9d9c9b9a9998, 31);
    assert Twelve(g4, 0x9a5068807e344ca3, 0x56fa18785afe1d62, 0x949a8b3658a24738, 0xfc64ec83fc64ec83,
                      0x9a5068807e344ca3, 0x8857a6978453a38d, 0x0000000000000000, 0x0000000000000000,
                      0xdeadbeefdeadbeef, 0x0000000000000000, 0x0000000000000000, 0x592b3b6b5d2f3f6f);
    g5 := MixRow(g4, 4, 0xa7a6a5a4a3a2a1a0, 17);
    assert Twelve(g5, 0x9a5068807e344ca3, 0x56fa18785afe1d62, 0x949a8b3658a24738, 0x45eb893e6205a64d,
                      0x1c4a43addc8683ee, 0x8857a6978453a38d, 0x949a8b3658a24738, 0x0000000000000000,
                      0xdeadbeefdeadbeef, 0x0000000000000000, 0x0000000000000000, 0x592b3b6b5d2f3f6f);
    g6 := MixRow(g5, 5, 0xafaeadacabaaa9a8, 28);
  }

  lemma {:induction false} FirstMixB(g0: Words12)
    returns (g1: Words12, g2: Words12, g3: Words12, g4: Words12, g5: Words12, g6: Words12)
    requires Twelve(g0, 0x9a5068807e344ca3, 0x56fa18785afe1d62, 0x949a8b3658a24738, 0x45eb893e6205a64d,
                        0xb8e6a3204c1b1613, 0x42ffe4d353806544, 0x949a8b3658a24738, 0x45eb893e6205a64d,
                        0xdeadbeefdeadbeef, 0x0000000000000000, 0x0000000000000000, 0x592b3b6b5d2f3f6f)
    ensures g1 == MixRow(g0, 6, 0xb7b6b5b4b3b2b1b0, 39) && g2 == MixRow(g1, 7, 0xbfbebdbcbbbab9b8, 57)
    ensures g3 == MixRow(g2, 8, 0xc7c6c5c4c3c2c1c0, 55) && g4 == MixRow(g3, 9, 0xcfcecdcccbcac9c8, 54)
    ensures g5 == MixRow(g4, 10, 0xd7d6d5d4d3d2d1d0, 22) && g6 == MixRow(g5, 11, 0xdfdedddcdbdad9d8, 46)
    ensures Twelve(g6, 0x8af12cdf7190a350, 0x69ab04c2d0c31744, 0x949a8b3658a24738, 0x45eb893e6205a64d,
                       0xb8e6a3204c1b1613, 0x549a2d76c1da43f9, 0x962150acc816be7f, 0x78b4e490621d2e75,
                       0x10a1445f0fa4eff3, 0x3f511cba8a3d0a26, 0x2c09749b7a68384b, 0x3abc805faf7606c3)
  {
    g1 := MixRow(g0, 6, 0xb7b6b5b4b3b2b1b0, 39);
    assert Twelve(g1, 0x9a5068807e344ca3, 0x56fa18785afe1d62, 0x949a8b3658a24738, 0x45eb893e6205a64d,
                      0xb8e6a3204c1b1613, 0x549a2d76c1da43f9, 0x2a7c742628a07586, 0x45eb893e6205a64d,
                      0x664b1dcf92b6a8fc, 0x0000000000000000, 0x0000000000000000, 0x592b3b6b5d2f3f6f);
    g2 := MixRow(g1, 7, 0xbfbebdbcbbbab9b8, 57);
    assert Twelve(g2, 0x9a5068807e344ca3, 0x56fa18785afe1d62, 0x949a8b3658a24738, 0x45eb893e6205a64d,
                      0xb8e6a3204c1b1613, 0x549a2d76c1da43f9, 0x962150acc816be7f, 0x0a0b548df63b80c0,
                      0x664b1dcf92b6a8fc, 0x549a2d76c1da43f9, 0x0000000000000000, 0x592b3b6b5d2f3f6f);
    g3 := MixRow(g2, 8, 0xc7c6c5c4c3c2c1c0, 55);
    assert Twelve(g3, 0x9a5068807e344ca3, 0x56fa18785afe1d62, 0x949a8b3658a24738, 0x45eb893e6205a64d,
                      0xb8e6a3204c1b1613, 0x549a2d76c1da43f9, 0x962150acc816be7f, 0x78b4e490621d2e75,
                      0x5e1708f1ca2b3cb5, 0x549a2d76c1da43f9, 0x962150acc816be7f, 0x592b3b6b5d2f3f6f);
    g4 := MixRow(g3, 9, 0xcfcecdcccbcac9c8, 54);
    assert Twelve(g4, 0x9a5068807e344ca3, 0x56fa18785afe1d62, 0x949a8b3658a24738, 0x45eb893e6205a64d,
                      0xb8e6a3204c1b1613, 0x549a2d76c1da43f9, 0x962150acc816be7f, 0x78b4e490621d2e75,
                      0x10a1445f0fa4eff3, 0x70491a3ed0e36943, 0x962150acc816be7f, 0x219fdffb3f32111a);
    g5 := MixRow(g4, 10, 0xd7d6d5d4d3d2d1d0, 22);
    assert Twelve(g5, 0x8af12cdf7190a350, 0x56fa18785afe1d62, 0x949a8b3658a24738, 0x45eb893e6205a64d,
                      0xb8e6a3204c1b1613, 0x549a2d76c1da43f9, 0x962150acc816be7f, 0x78b4e490621d2e75,
                      0x10a1445f0fa4eff3, 0x3f511cba8a3d0a26, 0xa066fa6413db7e09, 0x219fdffb3f32111a);
    g6 := MixRow(g5, 11, 0xdfdedddcdbdad9d8, 46);
  }

  lemma {:induction false} SecondMixA(g0: Words12)
    returns (g1: Words12, g2: Words12, g3: Words12, g4: Words12, g5: Words12, g6: Words12)
    requires Twelve(g0, 0x8af12cdf7190a350, 0x69ab04c2d0c31744, 0x949a8b3658a24738, 0x45eb893e6205a64d,
                        0xb8e6a3204c1b1613, 0x549a2d76c1da43f9, 0x962150acc816be7f, 0x78b4e490621d2e75,
                        0x10a1445f0fa4eff3, 0x3f511cba8a3d0a26, 0x2c09749b7a68384b, 0x3abc805faf7606c3)
    ensures g1 == MixRow(g0, 0, 0xe7e6e5e4e3e2e1e0, 11) && g2 == MixRow(g1, 1, 0xefeeedecebeae9e8, 32)
    ensures g3 == MixRow(g2, 2, 0xf7f6f5f4f3f2f1f0, 43) && g4 == MixRow(g3, 3, 0xfffefdfcfbfaf9f8, 31)
    ensures g5 == MixRow(g4, 4, 0x0706050403020100, 17) && g6 == MixRow(g5, 5, 0x0f0e0d0c0b0a0908, 28)
    ensures Twelve(g6, 0x51a3cfb14352022d, 0x040912eef7f1c146, 0x05ad6e6b02ae3c05, 0x72c2a9c49fe61dcf,
                       0x5017a6fa3600edcb, 0x441358bc75fa14ca, 0x938c3ec7cab8827a, 0x0a764d54fdfb33ba,
                       0x10a1445f0fa4eff3, 0x3f511cba8a3d0a26, 0x2c09749b7a68384b, 0xb20f975ecac89b37)
  {
    g1 := MixRow(g0, 0, 0xe7e6e5e4e3e2e1e0, 11);
    assert Twelve(g1, 0xc09622ab9c298396, 0x69ab04c2d0c31744, 0xb893ffad22ca7f73, 0x45eb893e6205a64d,
                      0xb8e6a3204c1b1613, 0x549a2d76c1da43f9, 0x962150acc816be7f, 0x78b4e490621d2e75,
                      0x10a1445f0fa4eff3, 0x3f511cba8a3d0a26, 0x2c09749b7a68384b, 0xb20f975ecac89b37);
    g2 := MixRow(g1, 1, 0xefeeedecebeae9e8, 32);
    assert Twelve(g2, 0x51a3cfb14352022d, 0xbcae012c5999f2af, 0xb893ffad22ca7f73, 0xf7e41e60a8cd3d7a,
                      0xb8e6a3204c1b1613, 0x549a2d76c1da43f9, 0x962150acc816be7f, 0x78b4e490621d2e75,
                      0x10a1445f0fa4eff3, 0x3f511cba8a3d0a26, 0x2c09749b7a68384b, 0xb20f975ecac89b37);
    g3 := MixRow(g2, 2, 0xf7f6f5f4f3f2f1f0, 43);
    assert Twelve(g3, 0x51a3cfb14352022d, 0x040912eef7f1c146, 0xeb8b1d8457ad10b5, 0xf7e41e60a8cd3d7a,
                      0xe9456c910f49143e, 0x549a2d76c1da43f9, 0x962150acc816be7f, 0x78b4e490621d2e75,
                      0x10a1445f0fa4eff3, 0x3f511cba8a3d0a26, 0x2c09749b7a68384b, 0xb20f975ecac89b37);
    g4 := MixRow(g3, 3, 0xfffefdfcfbfaf9f8, 31);
    assert Twelve(g4, 0x51a3cfb14352022d, 0x040912eef7f1c146, 0x05ad6e6b02ae3c05, 0xd2641bb97bf18e2e,
                      0xe9456c910f49143e, 0x50933f98362b82bf, 0x962150acc816be7f, 0x78b4e490621d2e75,
                      0x10a1445f0fa4eff3, 0x3f511cba8a3d0a26, 0x2c09749b7a68384b, 0xb20f975ecac89b37);
    g5 := MixRow(g4, 4, 0x0706050403020100, 17);
    assert Twelve(g5, 0x51a3cfb14352022d, 0x040912eef7f1c146, 0x05ad6e6b02ae3c05, 0x72c2a9c49fe61dcf,
                      0xe32a24962a7de096, 0x50933f98362b82bf, 0x938c3ec7cab8827a, 0x78b4e490621d2e75,
                      0x10a1445f0fa4eff3, 0x3f511cba8a3d0a26, 0x2c09749b7a68384b, 0xb20f975ecac89b37);
    g6 := MixRow(g5, 5, 0x0f0e0d0c0b0a0908, 28);
  }

  lemma {:induction false} SecondMixB(g0: Words12)
    returns (g1: Words12, g2: Words12, g3: Words12, g4: Words12, g5: Words12, g6: Words12)
    requires Twelve(g0, 0x51a3cfb14352022d, 0x040912eef7f1c146, 0x05ad6e6b02ae3c05, 0x72c2a9c49fe61dcf,
                        0x5017a6fa3600edcb, 0x441358bc75fa14ca, 0x938c3ec7cab8827a, 0x0a764d54fdfb33ba,
                        0x10a1445f0fa4eff3, 0x3f511cba8a3d0a26, 0x2c09749b7a68384b, 0xb20f975ecac89b37)
    ensures g1 == MixRow(g0, 6, 0x1716151413121110, 39) && g2 == MixRow(g1, 7, 0x1f1e1d1c1b1a1918, 57)
    ensures g3 == MixRow(g2, 8, 0x2726252423222120, 55) && g4 == MixRow(g3, 9, 0x2f2e2d2c2b2a2928, 54)
    ensures g5 == MixRow(g4, 10, 0x3736353433323130, 22) && g6 == MixRow(g5, 11, 0x3f3e3d3c3b3a3938, 46)
    ensures Twelve(g6, 0x2a964ab5ec255679, 0x15fc4af67400ff45, 0x05ad6e6b02ae3c05, 0x72c2a9c49fe61dcf,
                       0x5017a6fa3600edcb, 0xf92758bca62bbafa, 0x0d9491c981e0a374, 0x8a047323eb0aba9d,
                       0x7b358504af775454, 0x11f5581883f13e03, 0x0117d9c0334fc65d, 0x16b89dd2886e573f)
  {
    g1 := MixRow(g0, 6, 0x1716151413121110, 39);
    assert Twelve(g1, 0x51a3cfb14352022d, 0x040912eef7f1c146, 0x05ad6e6b02ae3c05, 0x72c2a9c49fe61dcf,
                      0x5017a6fa3600edcb, 0xf92758bca62bbafa, 0xe549c5555129edee, 0x0a764d54fdfb33ba,
                      0x40b6e2a539a40238, 0x3f511cba8a3d0a26, 0x2c09749b7a68384b, 0xb20f975ecac89b37);
    g2 := MixRow(g1, 7, 0x1f1e1d1c1b1a1918, 57);
    assert Twelve(g2, 0x51a3cfb14352022d, 0x040912eef7f1c146, 0x05ad6e6b02ae3c05, 0x72c2a9c49fe61dcf,
                      0x5017a6fa3600edcb, 0xf92758bca62bbafa, 0x0d9491c981e0a374, 0xa45328d4e2322a99,
                      0x40b6e2a539a40238, 0xc67644062c16b0dc, 0x2c09749b7a68384b, 0xb20f975ecac89b37);
    g3 := MixRow(g2, 8, 0x2726252423222120, 55);
    assert Twelve(g3, 0x51a3cfb14352022d, 0x040912eef7f1c146, 0x05ad6e6b02ae3c05, 0x72c2a9c49fe61dcf,
                      0x5017a6fa3600edcb, 0xf92758bca62bbafa, 0x0d9491c981e0a374, 0x8a047323eb0aba9d,
                      0xac33ee83e4ae6311, 0xc67644062c16b0dc, 0x219de552fb889b3f, 0xb20f975ecac89b37);
    g4 := MixRow(g3, 9, 0x2f2e2d2c2b2a2928, 54);
    assert Twelve(g4, 0x51a3cfb14352022d, 0x040912eef7f1c146, 0x05ad6e6b02ae3c05, 0x72c2a9c49fe61dcf,
                      0x5017a6fa3600edcb, 0xf92758bca62bbafa, 0x0d9491c981e0a374, 0x8a047323eb0aba9d,
                      0x7b358504af775454, 0x813d691c4c95d036, 0x219de552fb889b3f, 0x380be47d21c221aa);
    g5 := MixRow(g4, 10, 0x3736353433323130, 22);
    assert Twelve(g5, 0x2a964ab5ec255679, 0x040912eef7f1c146, 0x05ad6e6b02ae3c05, 0x72c2a9c49fe61dcf,
                      0x5017a6fa3600edcb, 0xf92758bca62bbafa, 0x0d9491c981e0a374, 0x8a047323eb0aba9d,
                      0x7b358504af775454, 0x11f5581883f13e03, 0xa1cbaeb31bd63506, 0x380be47d21c221aa);
    g6 := MixRow(g5, 11, 0x3f3e3d3c3b3a3938, 46);
  }

  lemma {:induction false} FirstEndA(g0: Words12)
    returns (g1: Words12, g2: Words12, g3: Words12, g4: Words12, g5: Words12, g6: Words12)
    requires Twelve(g0, 0x71dc8ffa2f6797b9, 0x15fc4af67400ff45, 0x05ad6e6b02ae3c05, 0x72c2a9c49fe61dcf,
                        0x5017a6fa3600edcb, 0xf92758bca62bbafa, 0x0d9491c981e0a374, 0x8a047323eb0aba9d,
                        0x7b358504af775454, 0x11f5581883f13e03, 0x0117d9c0334fc65d, 0x1eb89dd2886e573f)
    ensures g1 == EndRow(g0, 0, 44) && g2 == EndRow(g1, 1, 15) && g3 == EndRow(g2, 2, 34)
    ensures g4 == EndRow(g3, 3, 21) && g5 == EndRow(g4, 4, 38) && g6 == EndRow(g5, 5, 33)
    ensures Twelve(g6, 0xa2f6169e2e29023a, 0xe02910ba767e8735, 0x7390b5a0f5bf038a, 0x51f46cf39467b6da,
                       0x24690d07755d1d84, 0xe52e5c22adfb4714, 0x2b0e2b5cb8c1fa74, 0xae6d7e249e57a719,
                       0x7b358504af775454, 0x11f5581883f13e03, 0x0117d9c0334fc65d, 0x34b4e8c8fc6f5684)
  {
    g1 := EndRow(g0, 0, 44);
    assert Twelve(g1, 0x71dc8ffa2f6797b9, 0x0ff4515fc4af6740, 0x311986a3fec16a81, 0x72c2a9c49fe61dcf,
                      0x5017a6fa3600edcb, 0xf92758bca62bbafa, 0x0d9491c981e0a374, 0x8a047323eb0aba9d,
                      0x7b358504af775454, 0x11f5581883f13e03, 0x0117d9c0334fc65d, 0x34b4e8c8fc6f5684);
    g2 := EndRow(g1, 1, 15);
    assert Twelve(g2, 0xa2f6169e2e29023a, 0x0ff4515fc4af6740, 0xc351ff60b540988c, 0xd034bf5ab1cf1ff5,
                      0x5017a6fa3600edcb, 0xf92758bca62bbafa, 0x0d9491c981e0a374, 0x8a047323eb0aba9d,
                      0x7b358504af775454, 0x11f5581883f13e03, 0x0117d9c0334fc65d, 0x34b4e8c8fc6f5684);
    g3 := EndRow(g2, 2, 34);
    assert Twelve(g3, 0xa2f6169e2e29023a, 0xe02910ba767e8735, 0xc351ff60b540988c, 0xc73c7fd740d2fd6a,
                      0xb03eb640407e6afe, 0xf92758bca62bbafa, 0x0d9491c981e0a374, 0x8a047323eb0aba9d,
                      0x7b358504af775454, 0x11f5581883f13e03, 0x0117d9c0334fc65d, 0x34b4e8c8fc6f5684);
    g4 := EndRow(g3, 3, 21);
    assert Twelve(g4, 0xa2f6169e2e29023a, 0xe02910ba767e8735, 0x7390b5a0f5bf038a, 0xc73c7fd740d2fd6a,
                      0xc8080fcd5fd607d6, 0x8ab7ed1c5394b970, 0x0d9491c981e0a374, 0x8a047323eb0aba9d,
                      0x7b358504af775454, 0x11f5581883f13e03, 0x0117d9c0334fc65d, 0x34b4e8c8fc6f5684);
    g5 := EndRow(g4, 4, 38);
    assert Twelve(g5, 0xa2f6169e2e29023a, 0xe02910ba767e8735, 0x7390b5a0f5bf038a, 0x51f46cf39467b6da,
                      0xc8080fcd5fd607d6, 0xe52e5c22adfb4714, 0x5c60fd3a158715ae, 0x8a047323eb0aba9d,
                      0x7b358504af775454, 0x11f5581883f13e03, 0x0117d9c0334fc65d, 0x34b4e8c8fc6f5684);
    g6 := EndRow(g5, 5, 33);
  }

  lemma {:induction false} FirstEndB(g0: Words12)
    returns (g1: Words12, g2: Words12, g3: Words12, g4: Words12, g5: Words12, g6: Words12)
    requires Twelve(g0, 0xa2f6169e2e29023a, 0xe02910ba767e8735, 0x7390b5a0f5bf038a, 0x51f46cf39467b6da,
                        0x24690d07755d1d84, 0xe52e5c22adfb4714, 0x2b0e2b5cb8c1fa74, 0xae6d7e249e57a719,
                        0x7b358504af775454, 0x11f5581883f13e03, 0x0117d9c0334fc65d, 0x34b4e8c8fc6f5684)
    ensures g1 == EndRow(g0, 6, 10) && g2 == EndRow(g1, 7, 13) && g3 == EndRow(g2, 8, 38)
    ensures g4 == EndRow(g3, 9, 53) && g5 == EndRow(g4, 10, 42) && g6 == EndRow(g5, 11, 54)
    ensures Twelve(g6, 0xeac576e6e0ef6fb4, 0xf51bd6812d991464, 0x7390b5a0f5bf038a, 0x51f46cf39467b6da,
                       0x24690d07755d1d84, 0x939bda474c52ee2d, 0x13bc8aa09be7b4ed, 0xb842653176b2f1a7,
                       0x853e3955fd4c750f, 0xb72d8d1d9397d191, 0x1532c63b5be79351, 0x8c8e2ec62b467404)
  {
    g1 := EndRow(g0, 6, 10);
    assert Twelve(g1, 0xa2f6169e2e29023a, 0xe02910ba767e8735, 0x7390b5a0f5bf038a, 0x51f46cf39467b6da,
                      0x24690d07755d1d84, 0x939bda474c52ee2d, 0x2b0e2b5cb8c1fa74, 0xb5f892795e9c66b9,
                      0xe8ae5f43e325ba79, 0x11f5581883f13e03, 0x0117d9c0334fc65d, 0x34b4e8c8fc6f5684);
    g2 := EndRow(g1, 7, 13);
    assert Twelve(g2, 0xa2f6169e2e29023a, 0xe02910ba767e8735, 0x7390b5a0f5bf038a, 0x51f46cf39467b6da,
                      0x24690d07755d1d84, 0x939bda474c52ee2d, 0x13bc8aa09be7b4ed, 0xb5f892795e9c66b9,
                      0xcbe87c64b74f3d15, 0x0249d2b818168aee, 0x0117d9c0334fc65d, 0x34b4e8c8fc6f5684);
    g3 := EndRow(g2, 8, 38);
    assert Twelve(g3, 0xa2f6169e2e29023a, 0xe02910ba767e8735, 0x7390b5a0f5bf038a, 0x51f46cf39467b6da,
                      0x24690d07755d1d84, 0x939bda474c52ee2d, 0x13bc8aa09be7b4ed, 0xb842653176b2f1a7,
                      0xcbe87c64b74f3d15, 0x05a2bb809274ae06, 0xb955bcf145fd37fa, 0x34b4e8c8fc6f5684);
    g4 := EndRow(g3, 9, 53);
    assert Twelve(g4, 0xa2f6169e2e29023a, 0xe02910ba767e8735, 0x7390b5a0f5bf038a, 0x51f46cf39467b6da,
                      0x24690d07755d1d84, 0x939bda474c52ee2d, 0x13bc8aa09be7b4ed, 0xb842653176b2f1a7,
                      0x853e3955fd4c750f, 0x05a2bb809274ae06, 0xff572ab79e28bfa6, 0xb18ad19d0123238b);
    g5 := EndRow(g4, 10, 42);
    assert Twelve(g5, 0x15db9b83bdbed3ab, 0xe02910ba767e8735, 0x7390b5a0f5bf038a, 0x51f46cf39467b6da,
                      0x24690d07755d1d84, 0x939bda474c52ee2d, 0x13bc8aa09be7b4ed, 0xb842653176b2f1a7,
                      0x853e3955fd4c750f, 0xb72d8d1d9397d191, 0xff572ab79e28bfa6, 0x8c8e2ec62b467404);
    g6 := EndRow(g5, 11, 54);
  }

  lemma {:induction false} SecondEndA(g0: Words12)
    returns (g1: Words12, g2: Words12, g3: Words12, g4: Words12, g5: Words12, g6: Words12)
    requires Twelve(g0, 0xeac576e6e0ef6fb4, 0xf51bd6812d991464, 0x7390b5a0f5bf038a, 0x51f46cf39467b6da,
                        0x24690d07755d1d84, 0x939bda474c52ee2d, 0x13bc8aa09be7b4ed, 0xb842653176b2f1a7,
                        0x853e3955fd4c750f, 0xb72d8d1d9397d191, 0x1532c63b5be79351, 0x8c8e2ec62b467404)
    ensures g1 == EndRow(g0, 0, 44) && g2 == EndRow(g1, 1, 15) && g3 == EndRow(g2, 2, 34)
    ensures g4 == EndRow(g3, 3, 21) && g5 == EndRow(g4, 4, 38) && g6 == EndRow(g5, 5, 33)
    ensures Twelve(g6, 0xdd0027ce8e4ffb96, 0x1e3a9a8ed7906025, 0x92c76e39e8bef6be, 0x69fde9b0d8bd4587,
                       0x6b75bcbff7823bdc, 0x3b0624c0572d1fa9, 0x86b5e2d4f482c620, 0xd337d98e8130ca7b,
                       0x853e3955fd4c750f, 0xb72d8d1d9397d191, 0x1532c63b5be79351, 0x81aa054758df8868)
  {
    g1 := EndRow(g0, 0, 44);
    assert Twelve(g1, 0xeac576e6e0ef6fb4, 0x91464f51bd6812d9, 0xf23ab0e7ad608be2, 0x51f46cf39467b6da,
                      0x24690d07755d1d84, 0x939bda474c52ee2d, 0x13bc8aa09be7b4ed, 0xb842653176b2f1a7,
                      0x853e3955fd4c750f, 0xb72d8d1d9397d191, 0x1532c63b5be79351, 0x81aa054758df8868);
    g2 := EndRow(g1, 1, 15);
    assert Twelve(g2, 0xdd0027ce8e4ffb96, 0x91464f51bd6812d9, 0x5873d6b045f1791d, 0x8cf44b3d1a284d4c,
                      0x24690d07755d1d84, 0x939bda474c52ee2d, 0x13bc8aa09be7b4ed, 0xb842653176b2f1a7,
                      0x853e3955fd4c750f, 0xb72d8d1d9397d191, 0x1532c63b5be79351, 0x81aa054758df8868);
    g3 := EndRow(g2, 2, 34);
    assert Twelve(g3, 0xdd0027ce8e4ffb96, 0x1e3a9a8ed7906025, 0x5873d6b045f1791d, 0x68a1353233d12cf4,
                      0x3a539789a2cd7da1, 0x939bda474c52ee2d, 0x13bc8aa09be7b4ed, 0xb842653176b2f1a7,
                      0x853e3955fd4c750f, 0xb72d8d1d9397d191, 0x1532c63b5be79351, 0x81aa054758df8868);
    g4 := EndRow(g3, 3, 21);
    assert Twelve(g4, 0xdd0027ce8e4ffb96, 0x1e3a9a8ed7906025, 0x92c76e39e8bef6be, 0x68a1353233d12cf4,
                      0xf13459afb4274a72, 0x015cb47ea4ec1893, 0x13bc8aa09be7b4ed, 0xb842653176b2f1a7,
                      0x853e3955fd4c750f, 0xb72d8d1d9397d191, 0x1532c63b5be79351, 0x81aa054758df8868);
    g5 := EndRow(g4, 4, 38);
    assert Twelve(g5, 0xdd0027ce8e4ffb96, 0x1e3a9a8ed7906025, 0x92c76e39e8bef6be, 0x69fde9b0d8bd4587,
                      0xf13459afb4274a72, 0x3b0624c0572d1fa9, 0x7a416310435af16a, 0xb842653176b2f1a7,
                      0x853e3955fd4c750f, 0xb72d8d1d9397d191, 0x1532c63b5be79351, 0x81aa054758df8868);
    g6 := EndRow(g5, 5, 33);
  }

  lemma {:induction false} SecondEndB(g0: Words12)
    returns (g1: Words12, g2: Words12, g3: Words12, g4: Words12, g5: Words12, g6: Words12)
    requires Twelve(g0, 0xdd0027ce8e4ffb96, 0x1e3a9a8ed7906025, 0x92c76e39e8bef6be, 0x69fde9b0d8bd4587,
                        0x6b75bcbff7823bdc, 0x3b0624c0572d1fa9, 0x86b5e2d4f482c620, 0xd337d98e8130ca7b,
                        0x853e3955fd4c750f, 0xb72d8d1d9397d191, 0x1532c63b5be79351, 0x81aa054758df8868)
    ensures g1 == EndRow(g0, 6, 10) && g2 == EndRow(g1, 7, 13) && g3 == EndRow(g2, 8, 38)
    ensures g4 == EndRow(g3, 9, 53) && g5 == EndRow(g4, 10, 42) && g6 == EndRow(g5, 11, 54)
    ensures Twelve(g6, 0xedf57bc246ce4da9, 0xdadbb8a085c9e0d8, 0x92c76e39e8bef6be, 0x69fde9b0d8bd4587,
                       0x6b75bcbff7823bdc, 0x0e3dfe4ed85dea24, 0x11b9a9f01994654b, 0x85fa5ef24d2da426,
                       0x09abfd6b4aafa8d7, 0x08ef2ed5b7795c21, 0xc4e1222e525980fd, 0xc082fe2007e0b049)
  {
    g1 := EndRow(g0, 6, 10);
    assert Twelve(g1, 0xdd0027ce8e4ffb96, 0x1e3a9a8ed7906025, 0x92c76e39e8bef6be, 0x69fde9b0d8bd4587,
                      0x6b75bcbff7823bdc, 0x0e3dfe4ed85dea24, 0x86b5e2d4f482c620, 0xdf663a04c329ef4c,
                      0x8b03c71b25119f2b, 0xb72d8d1d9397d191, 0x1532c63b5be79351, 0x81aa054758df8868);
    g2 := EndRow(g1, 7, 13);
    assert Twelve(g2, 0xdd0027ce8e4ffb96, 0x1e3a9a8ed7906025, 0x92c76e39e8bef6be, 0x69fde9b0d8bd4587,
                      0x6b75bcbff7823bdc, 0x0e3dfe4ed85dea24, 0x11b9a9f01994654b, 0xdf663a04c329ef4c,
                      0x78e364a233e57160, 0xa69424ed8a03b4da, 0x1532c63b5be79351, 0x81aa054758df8868);
    g3 := EndRow(g2, 8, 38);
    assert Twelve(g3, 0xdd0027ce8e4ffb96, 0x1e3a9a8ed7906025, 0x92c76e39e8bef6be, 0x69fde9b0d8bd4587,
                      0x6b75bcbff7823bdc, 0x0e3dfe4ed85dea24, 0x11b9a9f01994654b, 0x85fa5ef24d2da426,
                      0x78e364a233e57160, 0x80ed36a9a5093b62, 0x90c898c916ca3777, 0x81aa054758df8868);
    g4 := EndRow(g3, 9, 53);
    assert Twelve(g4, 0xdd0027ce8e4ffb96, 0x1e3a9a8ed7906025, 0x92c76e39e8bef6be, 0x69fde9b0d8bd4587,
                      0x6b75bcbff7823bdc, 0x0e3dfe4ed85dea24, 0x11b9a9f01994654b, 0x85fa5ef24d2da426,
                      0x09abfd6b4aafa8d7, 0x80ed36a9a5093b62, 0xeef219131922d946, 0x8801f82c127020bf);
    g5 := EndRow(g4, 10, 42);
    assert Twelve(g5, 0xd5ef091b3936a7b7, 0x1e3a9a8ed7906025, 0x92c76e39e8bef6be, 0x69fde9b0d8bd4587,
                      0x6b75bcbff7823bdc, 0x0e3dfe4ed85dea24, 0x11b9a9f01994654b, 0x85fa5ef24d2da426,
                      0x09abfd6b4aafa8d7, 0x08ef2ed5b7795c21, 0xeef219131922d946, 0xc082fe2007e0b049);
    g6 := EndRow(g5, 11, 54);
  }

  lemma {:induction false} ThirdEndA(g0: Words12)
    returns (g1: Words12, g2: Words12, g3: Words12, g4: Words12, g5: Words12, g6: Words12)
    requires Twelve(g0, 0xedf57bc246ce4da9, 0xdadbb8a085c9e0d8, 0x92c76e39e8bef6be, 0x69fde9b0d8bd4587,
                        0x6b75bcbff7823bdc, 0x0e3dfe4ed85dea24, 0x11b9a9f01994654b, 0x85fa5ef24d2da426,
                        0x09abfd6b4aafa8d7, 0x08ef2ed5b7795c21, 0xc4e1222e525980fd, 0xc082fe2007e0b049)
    ensures g1 == EndRow(g0, 0, 44) && g2 == EndRow(g1, 1, 15) && g3 == EndRow(g2, 2, 34)
    ensures g4 == EndRow(g3, 3, 21) && g5 == EndRow(g4, 4, 38) && g6 == EndRow(g5, 5, 33)
    ensures Twelve(g6, 0xf78f54bbabe2b548, 0x3c804ab92ee9f92b, 0x4472a8910d3b47c3, 0x17cf1a1e4f31a214,
                       0xc751e166b590c61d, 0x59ab79d293d5b7f5, 0xad4b8ebe0ced67dc, 0x42abbf94f8bd623b,
                       0x09abfd6b4aafa8d7, 0x08ef2ed5b7795c21, 0xc4e1222e525980fd, 0x9b5eb6c08daa9121)
  {
    g1 := EndRow(g0, 0, 44);
    assert Twelve(g1, 0xedf57bc246ce4da9, 0x9e0d8dadbb8a085c, 0x0999d8f96514679f, 0x69fde9b0d8bd4587,
                      0x6b75bcbff7823bdc, 0x0e3dfe4ed85dea24, 0x11b9a9f01994654b, 0x85fa5ef24d2da426,
                      0x09abfd6b4aafa8d7, 0x08ef2ed5b7795c21, 0xc4e1222e525980fd, 0x9b5eb6c08daa9121);
    g2 := EndRow(g1, 1, 15);
    assert Twelve(g2, 0xf78f54bbabe2b548, 0x9e0d8dadbb8a085c, 0xec7cb28a33cf84cc, 0x9e72bd0b735ff0cf,
                      0x6b75bcbff7823bdc, 0x0e3dfe4ed85dea24, 0x11b9a9f01994654b, 0x85fa5ef24d2da426,
                      0x09abfd6b4aafa8d7, 0x08ef2ed5b7795c21, 0xc4e1222e525980fd, 0x9b5eb6c08daa9121);
    g3 := EndRow(g2, 2, 34);
    assert Twelve(g3, 0xf78f54bbabe2b548, 0x3c804ab92ee9f92b, 0xec7cb28a33cf84cc, 0xcd7fc33e79caf42d,
                      0x57f5f606d96bc2f7, 0x0e3dfe4ed85dea24, 0x11b9a9f01994654b, 0x85fa5ef24d2da426,
                      0x09abfd6b4aafa8d7, 0x08ef2ed5b7795c21, 0xc4e1222e525980fd, 0x9b5eb6c08daa9121);
    g4 := EndRow(g3, 3, 21);
    assert Twelve(g4, 0xf78f54bbabe2b548, 0x3c804ab92ee9f92b, 0x4472a8910d3b47c3, 0xcd7fc33e79caf42d,
                      0xc0db2d785eeafebe, 0x4a4f56dfd566ade7, 0x11b9a9f01994654b, 0x85fa5ef24d2da426,
                      0x09abfd6b4aafa8d7, 0x08ef2ed5b7795c21, 0xc4e1222e525980fd, 0x9b5eb6c08daa9121);
    g5 := EndRow(g4, 4, 38);
    assert Twelve(g5, 0xf78f54bbabe2b548, 0x3c804ab92ee9f92b, 0x4472a8910d3b47c3, 0x17cf1a1e4f31a214,
                      0xc0db2d785eeafebe, 0x59ab79d293d5b7f5, 0x0676b3ee56a5c75f, 0x85fa5ef24d2da426,
                      0x09abfd6b4aafa8d7, 0x08ef2ed5b7795c21, 0xc4e1222e525980fd, 0x9b5eb6c08daa9121);
    g6 := EndRow(g5, 5, 33);
  }

  lemma {:induction false} ThirdEndB(g0: Words12)
    returns (g1: Words12, g2: Words12, g3: Words12, g4: Words12, g5: Words12, g6: Words12)
    requires Twelve(g0, 0xf78f54bbabe2b548, 0x3c804ab92ee9f92b, 0x4472a8910d3b47c3, 0x17cf1a1e4f31a214,
                        0xc751e166b590c61d, 0x59ab79d293d5b7f5, 0xad4b8ebe0ced67dc, 0x42abbf94f8bd623b,
                        0x09abfd6b4aafa8d7, 0x08ef2ed5b7795c21, 0xc4e1222e525980fd, 0x9b5eb6c08daa9121)
    ensures g1 == EndRow(g0, 6, 10) && g2 == EndRow(g1, 7, 13) && g3 == EndRow(g2, 8, 38)
    ensures g4 == EndRow(g3, 9, 53) && g5 == EndRow(g4, 10, 42) && g6 == EndRow(g5, 11, 54)
    ensures Twelve(g6, 0x60a579a81f6f7162, 0xc48e23a52daf0313, 0x4472a8910d3b47c3, 0x17cf1a1e4f31a214,
                       0xc751e166b590c61d, 0x9c5739678c931a30, 0x434852cad32a1ac3, 0xfaa5d00259dc33ec,
                       0xd6c68af3a1e2a5d0, 0x6269f4c616273cca, 0xf80e691c0346fa38, 0x20d3c53660f0ccb1)
  {
    g1 := EndRow(g0, 6, 10);
    assert Twelve(g1, 0xf78f54bbabe2b548, 0x3c804ab92ee9f92b, 0x4472a8910d3b47c3, 0x17cf1a1e4f31a214,
                      0xc751e166b590c61d, 0x9c5739678c931a30, 0xad4b8ebe0ced67dc, 0xaefe53e2f588ed0a,
                      0x95fcc40cc63cb2e7, 0x08ef2ed5b7795c21, 0xc4e1222e525980fd, 0x9b5eb6c08daa9121);
    g2 := EndRow(g1, 7, 13);
    assert Twelve(g2, 0xf78f54bbabe2b548, 0x3c804ab92ee9f92b, 0x4472a8910d3b47c3, 0x17cf1a1e4f31a214,
                      0xc751e166b590c61d, 0x9c5739678c931a30, 0x434852cad32a1ac3, 0xaefe53e2f588ed0a,
                      0x988198c7965cf2bf, 0x4ba77c1f645346e2, 0xc4e1222e525980fd, 0x9b5eb6c08daa9121);
    g3 := EndRow(g2, 8, 38);
    assert Twelve(g3, 0xf78f54bbabe2b548, 0x3c804ab92ee9f92b, 0x4472a8910d3b47c3, 0x17cf1a1e4f31a214,
                      0xc751e166b590c61d, 0x9c5739678c931a30, 0x434852cad32a1ac3, 0xfaa5d00259dc33ec,
                      0x988198c7965cf2bf, 0x14d1b892e9df07d9, 0x3e44f22c0b85b311, 0x9b5eb6c08daa9121);
    g4 := EndRow(g3, 9, 53);
    assert Twelve(g4, 0xf78f54bbabe2b548, 0x3c804ab92ee9f92b, 0x4472a8910d3b47c3, 0x17cf1a1e4f31a214,
                      0xc751e166b590c61d, 0x9c5739678c931a30, 0x434852cad32a1ac3, 0xfaa5d00259dc33ec,
                      0xd6c68af3a1e2a5d0, 0x14d1b892e9df07d9, 0x6227c89e458170b6, 0x4d983c332c4834f1);
    g5 := EndRow(g4, 10, 42);
    assert Twelve(g5, 0x95e6a07dbdc58982, 0x3c804ab92ee9f92b, 0x4472a8910d3b47c3, 0x17cf1a1e4f31a214,
                      0xc751e166b590c61d, 0x9c5739678c931a30, 0x434852cad32a1ac3, 0xfaa5d00259dc33ec,
                      0xd6c68af3a1e2a5d0, 0x6269f4c616273cca, 0x6227c89e458170b6, 0x20d3c53660f0ccb1);
    g6 := EndRow(g5, 11, 54);
  }

  lemma {:induction false} NoMixLine(h: Words12, data: Words12)
    ensures MixRows(h, data, 0) == h
  {
  }

  lemma {:induction false} NoEndLine(h: Words12)
    ensures EndRows(h, 0) == h
  {
  }

  lemma {:induction false} FirstMix(h: Words12, data: Words12)
    requires Twelve(h, 0x0000000000000000, 0x0000000000000000, 0xdeadbeefdeadbeef, 0x0000000000000000,
                       0x0000000000000000, 0xdeadbeefdeadbeef, 0x0000000000000000, 0x0000000000000000,
                       0xdeadbeefdeadbeef, 0x0000000000000000, 0x0000000000000000, 0xdeadbeefdeadbeef)
    requires Twelve(data, 0x8786858483828180, 0x8f8e8d8c8b8a8988, 0x9796959493929190, 0x9f9e9d9c9b9a9998,
                          0xa7a6a5a4a3a2a1a0, 0xafaeadacabaaa9a8, 0xb7b6b5b4b3b2b1b0, 0xbfbebdbcbbbab9b8,
                          0xc7c6c5c4c3c2c1c0, 0xcfcecdcccbcac9c8, 0xd7d6d5d4d3d2d1d0, 0xdfdedddcdbdad9d8)
    ensures Twelve(Mix(h, data), 0x8af12cdf7190a350, 0x69ab04c2d0c31744, 0x949a8b3658a24738, 0x45eb893e6205a64d,
                                 0xb8e6a3204c1b1613, 0x549a2d76c1da43f9, 0x962150acc816be7f, 0x78b4e490621d2e75,
                                 0x10a1445f0fa4eff3, 0x3f511cba8a3d0a26, 0x2c09749b7a68384b, 0x3abc805faf7606c3)
  {
    MixRots();
    hide MixRow, MixRows, MIX_ROT;
    NoMixLine(h, data);
    var g1, g2, g3, g4, g5, g6 := FirstMixA(h);
    SixMixLines(h, data, 0, h, g1, g2, g3, g4, g5, g6);
    var g7, g8, g9, g10, g11, g12 := FirstMixB(g6);
    SixMixLines(h, data, 6, g6, g7, g8, g9, g10, g11, g12);
  }

  lemma {:induction false} SecondMix(h: Words12, data: Words12)
    requires Twelve(h, 0x8af12cdf7190a350, 0x69ab04c2d0c31744, 0x949a8b3658a24738, 0x45eb893e6205a64d,
                       0xb8e6a3204c1b1613, 0x549a2d76c1da43f9, 0x962150acc816be7f, 0x78b4e490621d2e75,
                       0x10a1445f0fa4eff3, 0x3f511cba8a3d0a26, 0x2c09749b7a68384b, 0x3abc805faf7606c3)
    requires Twelve(data, 0xe7e6e5e4e3e2e1e0, 0xefeeedecebeae9e8, 0xf7f6f5f4f3f2f1f0, 0xfffefdfcfbfaf9f8,
                          0x0706050403020100, 0x0f0e0d0c0b0a0908, 0x1716151413121110, 0x1f1e1d1c1b1a1918,
                          0x2726252423222120, 0x2f2e2d2c2b2a2928, 0x3736353433323130, 0x3f3e3d3c3b3a3938)
    ensures Twelve(Mix(h, data), 0x2a964ab5ec255679, 0x15fc4af67400ff45, 0x05ad6e6b02ae3c05, 0x72c2a9c49fe61dcf,
                                 0x5017a6fa3600edcb, 0xf92758bca62bbafa, 0x0d9491c981e0a374, 0x8a047323eb0aba9d,
                                 0x7b358504af775454, 0x11f5581883f13e03, 0x0117d9c0334fc65d, 0x16b89dd2886e573f)
  {
    MixRots();
    hide MixRow, MixRows, MIX_ROT;
    NoMixLine(h, data);
    var g1, g2, g3, g4, g5, g6 := SecondMixA(h);
    SixMixLines(h, data, 0, h, g1, g2, g3, g4, g5, g6);
    var g7, g8, g9, g10, g11, g12 := SecondMixB(g6);
    SixMixLines(h, data, 6, g6, g7, g8, g9, g10, g11, g12);
  }

  lemma {:induction false} FirstEnd(h: Words12)
    requires Twelve(h, 0x71dc8ffa2f6797b9, 0x15fc4af67400ff45, 0x05ad6e6b02ae3c05, 0x72c2a9c49fe61dcf,
                       0x5017a6fa3600edcb, 0xf92758bca62bbafa, 0x0d9491c981e0a374, 0x8a047323eb0aba9d,
                       0x7b358504af775454, 0x11f5581883f13e03, 0x0117d9c0334fc65d, 0x1eb89dd2886e573f)
    ensures Twelve(EndPartial(h), 0xeac576e6e0ef6fb4, 0xf51bd6812d991464, 0x7390b5a0f5bf038a,
                                  0x51f46cf39467b6da, 0x24690d07755d1d84, 0x939bda474c52ee2d,
                                  0x13bc8aa09be7b4ed, 0xb842653176b2f1a7, 0x853e3955fd4c750f,
                                  0xb72d8d1d9397d191, 0x1532c63b5be79351, 0x8c8e2ec62b467404)
  {
    EndRots();
    hide EndRow, EndRows, END_ROT;
    NoEndLine(h);
    var g1, g2, g3, g4, g5, g6 := FirstEndA(h);
    SixEndLines(h, 0, h, g1, g2, g3, g4, g5, g6);
    var g7, g8, g9, g10, g11, g12 := FirstEndB(g6);
    SixEndLines(h, 6, g6, g7, g8, g9, g10, g11, g12);
  }

  lemma {:induction false} SecondEnd(h: Words12)
    requires Twelve(h, 0xeac576e6e0ef6fb4, 0xf51bd6812d991464, 0x7390b5a0f5bf038a, 0x51f46cf39467b6da,
                       0x24690d07755d1d84, 0x939bda474c52ee2d, 0x13bc8aa09be7b4ed, 0xb842653176b2f1a7,
                       0x853e3955fd4c750f, 0xb72d8d1d9397d191, 0x1532c63b5be79351, 0x8c8e2ec62b467404)
    ensures Twelve(EndPartial(h), 0xedf57bc246ce4da9, 0xdadbb8a085c9e0d8, 0x92c76e39e8bef6be,
                                  0x69fde9b0d8bd4587, 0x6b75bcbff7823bdc, 0x0e3dfe4ed85dea24,
                                  0x11b9a9f01994654b, 0x85fa5ef24d2da426, 0x09abfd6b4aafa8d7,
                                  0x08ef2ed5b7795c21, 0xc4e1222e525980fd, 0xc082fe2007e0b049)
  {
    EndRots();
    hide EndRow, EndRows, END_ROT;
    NoEndLine(h);
    var g1, g2, g3, g4, g5, g6 := SecondEndA(h);
    SixEndLines(h, 0, h, g1, g2, g3, g4, g5, g6);
    var g7, g8, g9, g10, g11, g12 := SecondEndB(g6);
    SixEndLines(h, 6, g6, g7, g8, g9, g10, g11, g12);
  }

  lemma {:induction false} ThirdEnd(h: Words12)
    requires Twelve(h, 0xedf57bc246ce4da9, 0xdadbb8a085c9e0d8, 0x92c76e39e8bef6be, 0x69fde9b0d8bd4587,
                       0x6b75bcbff7823bdc, 0x0e3dfe4ed85dea24, 0x11b9a9f01994654b, 0x85fa5ef24d2da426,
                       0x09abfd6b4aafa8d7, 0x08ef2ed5b7795c21, 0xc4e1222e525980fd, 0xc082fe2007e0b049)
    ensures Twelve(EndPartial(h), 0x60a579a81f6f7162, 0xc48e23a52daf0313, 0x4472a8910d3b47c3,
                                  0x17cf1a1e4f31a214, 0xc751e166b590c61d, 0x9c5739678c931a30,
                                  0x434852cad32a1ac3, 0xfaa5d00259dc33ec, 0xd6c68af3a1e2a5d0,
                                  0x6269f4c616273cca, 0xf80e691c0346fa38, 0x20d3c53660f0ccb1)
  {
    EndRots();
    hide EndRow, EndRows, END_ROT;
    NoEndLine(h);
    var g1, g2, g3, g4, g5, g6 := ThirdEndA(h);
    SixEndLines(h, 0, h, g1, g2, g3, g4, g5, g6);
    var g7, g8, g9, g10, g11, g12 := ThirdEndB(g6);
    SixEndLines(h, 6, g6, g7, g8, g9, g10, g11, g12);
  }

  lemma {:induction false} EmptyEnd(h: Words4)
    requires Four(h, 0x0000000000000000, 0x0000000000000000, 0xbd5b7ddfbd5b7dde, 0xbd5b7ddfbd5b7dde)
    ensures Four(ShortEnd(h), 0x232706fc6bf50919, 0x8b72ee65b4e851c7, 0x88d8e9628fb694ae, 0x015c99660e766a98)
  {
    hide ShortEnd, ShortEndRow;
    var g1, g2, g3, g4, g5, g6, g7, g8, g9, g10, g11 := EmptyEndA(h);
    ElevenEndLines(h, g1, g2, g3, g4, g5, g6, g7, g8, g9, g10, g11);
  }

  lemma {:induction false} OneEnd(h: Words4)
    requires Four(h, 0x0000000000000000, 0x0000000000000000, 0xdeadbeefdeadbf6f, 0xdfadbeefdeadbeef)
    ensures Four(ShortEnd(h), 0xa3bf77d970de1d26, 0x7585c07813503b1b, 0x56f042981b9f3356, 0x86b8a57ff105fa15)
  {
    hide ShortEnd, ShortEndRow;
    var g1, g2, g3, g4, g5, g6, g7, g8, g9, g10, g11 := OneEndA(h);
    ElevenEndLines(h, g1, g2, g3, g4, g5, g6, g7, g8, g9, g10, g11);
  }

  lemma {:induction false} FortyEnd(h: Words4)
    requires Four(h, 0xf8f13731ee83d623, 0xd65a09afa5c72a4b, 0x896c70c4b460ddbb, 0x1b20ece44f4bbf1e)
    ensures Four(ShortEnd(h), 0xe17837629856c65f, 0x397ba3ad34a52e08, 0xffe1fb52d6aed773, 0xb043e09baa8a7e27)
  {
    hide ShortEnd, ShortEndRow;
    var g1, g2, g3, g4, g5, g6, g7, g8, g9, g10, g11 := FortyEndA(h);
    ElevenEndLines(h, g1, g2, g3, g4, g5, g6, g7, g8, g9, g10, g11);
  }

  lemma {:induction false} NoShortMixLine(h: Words4)
    ensures ShortMixRows(h, 0) == h
  {
  }

  lemma {:induction false} FortyMix(h: Words4)
    requires Four(h, 0x0000000000000000, 0x0000000000000000, 0x663444746230406f, 0x6e3c4c7c6a384877)
    ensures Four(ShortMix(h), 0x615aa19d5af14493, 0x36bb6c130a2c90b3, 0xe1c5cb2010be3c1b, 0xf320ece44f4bbf1e)
  {
    ShortMixRots();
    hide ShortMixRow, ShortMixRows, SHORT_MIX_ROT;
    NoShortMixLine(h);
    var g1, g2, g3, g4, g5, g6, g7, g8, g9, g10, g11, g12 := FortyMixA(h);
    FourMixLines(h, 0, h, g1, g2, g3, g4);
    FourMixLines(h, 4, g4, g5, g6, g7, g8);
    FourMixLines(h, 8, g8, g9, g10, g11, g12);
  }

  // ----- the known answers ------------------------------------------------------------------

  lemma {:induction false} SmallWord(s: seq<byte>, i: nat, x: Word)
    requires 8 * i + 8 <= |s| && forall j :: 8 * i < j < 8 * i + 8 ==> s[j] == 0
    requires x as nat == s[8 * i]
    ensures WordOf(s, i) == x
  {
    hide *;
    var t := s[8 * i..8 * i + 8];
    assert t[0] == s[8 * i] && t[1] == t[2] == t[3] == t[4] == t[5] == t[6] == t[7] == 0;
    EightBytesValue(t);
    WordOfSlice(s, i);
    SameNumber(WordOf(s, i), x);
  }

  /** Less than one half set: only the tail. */
  lemma {:induction false} TinyState(msg: seq<byte>)
    requires |msg| < 16
    ensures ShortState(msg, 0, 0) == ShortEnd(ShortTail([0, 0, SC_CONST, SC_CONST], msg, |msg|))
  {
    hide ShortTail, ShortEnd;
    assert msg[0..] == msg;
  }

  lemma {:induction false} StateGivesHash(msg: seq<byte>, a: Word, b: Word, c: Word, d: Word)
    requires |msg| < BUF_SIZE && Four(ShortState(msg, 0, 0), a, b, c, d)
    ensures Hash128(msg, 0, 0) == (a, b)
  {
    hide ShortState;
  }

  lemma {:induction false} NoBytesHash()
    ensures Hash128(Buf(0), 0, 0) == (0x232706fc6bf50919, 0x8b72ee65b4e851c7)
  {
    hide ShortEnd, ShortState;
    TinyState(Buf(0));
    var h := ShortTail([0, 0, SC_CONST, SC_CONST], Buf(0), 0);
    assert Four(h, 0x0000000000000000, 0x0000000000000000, 0xbd5b7ddfbd5b7dde, 0xbd5b7ddfbd5b7dde);
    EmptyEnd(h);
    StateGivesHash(Buf(0), 0x232706fc6bf50919, 0x8b72ee65b4e851c7,
                   0x88d8e9628fb694ae, 0x015c99660e766a98);
  }

  lemma {:induction false} OneByteTail()
    ensures Four(ShortTail([0, 0, SC_CONST, SC_CONST], Buf(1), 1),
                 0x0000000000000000, 0x0000000000000000, 0xdeadbeefdeadbf6f, 0xdfadbeefdeadbeef)
  {
    hide WordOf;
    var s := Buf(1) + Zeros(15);
    SmallWord(s, 0, 128);
    SmallWord(s, 1, 0);
  }

  lemma {:induction false} OneByteHash()
    ensures Hash128(Buf(1), 0, 0) == (0xa3bf77d970de1d26, 0x7585c07813503b1b)
  {
    hide ShortEnd, ShortTail, ShortState;
    TinyState(Buf(1));
    OneByteTail();
    OneEnd(ShortTail([0, 0, SC_CONST, SC_CONST], Buf(1), 1));
    StateGivesHash(Buf(1), 0xa3bf77d970de1d26, 0x7585c07813503b1b,
                   0x56f042981b9f3356, 0x86b8a57ff105fa15);
  }

  lemma {:induction false} FortyBytesState()
    ensures var h: Words4 := [0, 0, SC_CONST, SC_CONST];
            ShortState(Buf(40), 0, 0) == ShortEnd(ShortTail(ShortSet(h, Buf(40)), Buf(40)[32..], 40))
  {
    hide ShortTail, ShortEnd, ShortSet, ShortState, ShortHalf, ShortAbsorb, Buf;
    var msg := Buf(40);
    var h: Words4 := [0, 0, SC_CONST, SC_CONST];
    ShortStateIs(msg, 0, 0, 32, 32);
    ShortAbsorbEmpty(h, msg[..0]);
    ShortAbsorbStep(h, msg, 0);
    assert msg[0..] == msg;
    ShortHalfMeans(ShortSet(h, msg), msg[32..]);
  }

  lemma {:induction false} FortyBytesSet(h: Words4)
    requires h == [0, 0, SC_CONST, SC_CONST]
    ensures Four(ShortSet(h, Buf(40)),
                 0xf8f13731ee83d623, 0xd65a09afa5c72a4b, 0xe1c5cb2010be3c1b, 0xf320ece44f4bbf1e)
  {
    hide WordOf, ShortMix;
    FortyWords();
    var g: Words4 := h[2 := Plus(h[2], WordOf(Buf(40), 0))][3 := Plus(h[3], WordOf(Buf(40), 1))];
    assert Four(g, 0x0000000000000000, 0x0000000000000000, 0x663444746230406f, 0x6e3c4c7c6a384877);
    FortyMix(g);
  }

  lemma {:induction false} FortyWords()
    ensures WordOf(Buf(40), 0) == 0x8786858483828180 && WordOf(Buf(40), 1) == 0x8f8e8d8c8b8a8988
    ensures WordOf(Buf(40), 2) == 0x9796959493929190 && WordOf(Buf(40), 3) == 0x9f9e9d9c9b9a9998
  {
    hide WordOf;
    KnownWord(40, 0, 128, 0x8786858483828180);
    KnownWord(40, 1, 136, 0x8f8e8d8c8b8a8988);
    KnownWord(40, 2, 144, 0x9796959493929190);
    KnownWord(40, 3, 152, 0x9f9e9d9c9b9a9998);
  }

  lemma {:induction false} FortyBytesTail(h: Words4)
    requires Four(h, 0xf8f13731ee83d623, 0xd65a09afa5c72a4b, 0xe1c5cb2010be3c1b, 0xf320ece44f4bbf1e)
    ensures Four(ShortTail(h, Buf(40)[32..], 40),
                 0xf8f13731ee83d623, 0xd65a09afa5c72a4b, 0x896c70c4b460ddbb, 0x1b20ece44f4bbf1e)
  {
    hide WordOf;
    var tail := Buf(40)[32..];
    var s := tail + Zeros(8);
    SmallWord(s, 1, 0);
    assert s[0..8] == Buf(40)[32..40] && s[0..8] == tail;
    TailWord(s);
  }

  lemma {:induction false} TailWord(s: seq<byte>)
    requires |s| == 16 && s[0..8] == Buf(40)[32..40]
    ensures WordOf(s, 0) == 0xa7a6a5a4a3a2a1a0
  {
    hide Word64;
    KnownWord(40, 4, 160, 0xa7a6a5a4a3a2a1a0);
  }

  lemma {:induction false} FortyBytesHash()
    ensures Hash128(Buf(40), 0, 0) == (0xe17837629856c65f, 0x397ba3ad34a52e08)
  {
    hide ShortEnd, ShortTail, ShortSet, ShortState;
    FortyBytesState();
    var h: Words4 := [0, 0, SC_CONST, SC_CONST];
    FortyBytesSet(h);
    var g := ShortSet(h, Buf(40));
    FortyBytesTail(g);
    FortyEnd(ShortTail(g, Buf(40)[32..], 40));
    StateGivesHash(Buf(40), 0xe17837629856c65f, 0x397ba3ad34a52e08,
                   0xffe1fb52d6aed773, 0xb043e09baa8a7e27);
  }

  // ----- two hundred bytes, whole -------------------------------------------------------------

  /** The words of a block of the message are words of the message. */
  lemma {:induction false} WordsOfBlock(msg: seq<byte>, a: nat, i: nat)
    requires 96 * a + 96 <= |msg| && i < 12
    ensures Block(msg[96 * a..96 * a + 96])[i] == WordOf(msg, 12 * a + i)
  {
    hide Word64, WordOf, Block;
    var k, block := 12 * a + i, msg[96 * a..96 * a + 96];
    assert 8 * k == 96 * a + 8 * i;
    SliceOfSlice(msg, 96 * a, 96 * a + 96, 8 * i, 8 * i + 8);
    assert msg[8 * k..8 * k + 8] == block[8 * i..8 * i + 8];
    WordOfSlice(msg, k);
    WordOfSlice(block, i);
    BlockWord(block, i);
    assert Block(block)[i] == WordOf(block, i) == WordOf(msg, k);
  }

  lemma {:induction false} BlockWord(block: seq<byte>, i: nat)
    requires |block| == 96 && i < 12
    ensures Block(block)[i] == WordOf(block, i)
  {
    hide WordOf;
  }

  lemma {:induction false} SliceOfSlice(s: seq<byte>, p: nat, q: nat, a: nat, b: nat)
    requires p <= q <= |s| && a <= b <= q - p
    ensures s[p..q][a..b] == s[p + a..p + b]
  {
    var l, r := s[p..q][a..b], s[p + a..p + b];
    assert |l| == |r|;
    forall k | 0 <= k < |l| ensures l[k] == r[k] {
      assert s[p..q][a + k] == s[p + (a + k)];
    }
  }

  lemma {:induction false} FirstBlock()
    ensures Twelve(Block(Buf(200)[0..96]), 0x8786858483828180, 0x8f8e8d8c8b8a8988, 0x9796959493929190,
                                           0x9f9e9d9c9b9a9998, 0xa7a6a5a4a3a2a1a0, 0xafaeadacabaaa9a8,
                                           0xb7b6b5b4b3b2b1b0, 0xbfbebdbcbbbab9b8, 0xc7c6c5c4c3c2c1c0,
                                           0xcfcecdcccbcac9c8, 0xd7d6d5d4d3d2d1d0, 0xdfdedddcdbdad9d8)
  {
    hide Block, WordOf;
    Words0(200);
    Words1(200);
    Words2(200);
    forall i | 0 <= i < 12 ensures Block(Buf(200)[0..96])[i] == WordOf(Buf(200), i) {
      WordsOfBlock(Buf(200), 0, i);
    }
  }

  lemma {:induction false} SecondBlock()
    ensures Twelve(Block(Buf(200)[96..192]), 0xe7e6e5e4e3e2e1e0, 0xefeeedecebeae9e8, 0xf7f6f5f4f3f2f1f0,
                                             0xfffefdfcfbfaf9f8, 0x0706050403020100, 0x0f0e0d0c0b0a0908,
                                             0x1716151413121110, 0x1f1e1d1c1b1a1918, 0x2726252423222120,
                                             0x2f2e2d2c2b2a2928, 0x3736353433323130, 0x3f3e3d3c3b3a3938)
  {
    hide Block, WordOf;
    Words2(200);
    Words3(200);
    Words4(200);
    forall i | 0 <= i < 12 ensures Block(Buf(200)[96..192])[i] == WordOf(Buf(200), 12 + i) {
      WordsOfBlock(Buf(200), 1, i);
    }
  }

  lemma {:induction false} LastBlockWords()
    ensures Twelve(Block(LastBlock(Buf(200)[192..])), 0x4746454443424140, 0x0000000000000000,
                                                      0x0000000000000000, 0x0000000000000000,
                                                      0x0000000000000000, 0x0000000000000000,
                                                      0x0000000000000000, 0x0000000000000000,
                                                      0x0000000000000000, 0x0000000000000000,
                                                      0x0000000000000000, 0x0800000000000000)
  {
    hide WordOf;
    var s := LastBlock(Buf(200)[192..]);
    forall i | 0 < i < 11 ensures WordOf(s, i) == 0 {
      SmallWord(s, i, 0);
    }
    LengthInLastByte(s);
    FirstOfLast(s);
  }

  lemma {:induction false} FirstOfLast(s: seq<byte>)
    requires |s| == 96 && s[0..8] == Buf(200)[192..200]
    ensures WordOf(s, 0) == 0x4746454443424140
  {
    hide Word64;
    KnownWord(200, 24, 64, 0x4746454443424140);
  }

  lemma {:induction false} LengthInLastByte(s: seq<byte>)
    requires |s| == 96 && s[95] == 8 && forall j :: 88 <= j < 95 ==> s[j] == 0
    ensures WordOf(s, 11) == 0x0800000000000000
  {
    hide *;
    var t := s[88..96];
    assert t[0] == 0 && t[1] == 0 && t[2] == 0 && t[3] == 0 && t[4] == 0 && t[5] == 0 && t[6] == 0 && t[7] == 8;
    WordOfSlice(s, 11);
    TopByteIsEight(t);
  }

  lemma {:induction false} TopByteIsEight(t: seq<byte>)
    requires |t| == 8 && t[0] == 0 && t[1] == 0 && t[2] == 0 && t[3] == 0 && t[4] == 0 && t[5] == 0 && t[6] == 0
    requires t[7] == 8
    ensures Word64(t) == 0x0800000000000000
  {
    hide *;
    EightBytesValue(t);
    EightAtTheTop(Word64(t) as nat);
    SameNumber(Word64(t), 0x0800000000000000);
  }

  lemma {:induction false} EightAtTheTop(n: nat)
    requires n == 0x100_0000_0000_0000 * 8
    ensures n == (0x0800000000000000 as Word) as nat
  {
  }

  lemma {:induction false} AbsorbedTwoBlocks()
    ensures 192 % BLOCK_SIZE == 0
    ensures Twelve(Absorb(Seeded(0, 0), Buf(200)[..192]), 0x2a964ab5ec255679, 0x15fc4af67400ff45,
                                                          0x05ad6e6b02ae3c05, 0x72c2a9c49fe61dcf,
                                                          0x5017a6fa3600edcb, 0xf92758bca62bbafa,
                                                          0x0d9491c981e0a374, 0x8a047323eb0aba9d,
                                                          0x7b358504af775454, 0x11f5581883f13e03,
                                                          0x0117d9c0334fc65d, 0x16b89dd2886e573f)
  {
    hide Absorb, Mix, Block, Twelve, Buf;
    var msg, h0 := Buf(200), Seeded(0, 0);
    assert Twelve(h0, 0x0000000000000000, 0x0000000000000000, 0xdeadbeefdeadbeef, 0x0000000000000000,
                      0x0000000000000000, 0xdeadbeefdeadbeef, 0x0000000000000000, 0x0000000000000000,
                      0xdeadbeefdeadbeef, 0x0000000000000000, 0x0000000000000000, 0xdeadbeefdeadbeef) by {
      SeedWords();
    }
    AbsorbNothing(h0, msg[..0]);
    AbsorbStep(h0, msg, 0);
    FirstBlock();
    FirstMix(h0, Block(msg[0..96]));
    AbsorbStep(h0, msg, 96);
    SecondBlock();
    SecondMix(Mix(h0, Block(msg[0..96])), Block(msg[96..192]));
  }

  lemma {:induction false} SeedWords()
    ensures Twelve(Seeded(0, 0), 0x0000000000000000, 0x0000000000000000, 0xdeadbeefdeadbeef, 0x0000000000000000,
                                 0x0000000000000000, 0xdeadbeefdeadbeef, 0x0000000000000000, 0x0000000000000000,
                                 0xdeadbeefdeadbeef, 0x0000000000000000, 0x0000000000000000, 0xdeadbeefdeadbeef)
  {
  }

  lemma {:induction false} AddedLast(h: Words12, d: Words12)
    requires Twelve(h, 0x2a964ab5ec255679, 0x15fc4af67400ff45, 0x05ad6e6b02ae3c05, 0x72c2a9c49fe61dcf,
                       0x5017a6fa3600edcb, 0xf92758bca62bbafa, 0x0d9491c981e0a374, 0x8a047323eb0aba9d,
                       0x7b358504af775454, 0x11f5581883f13e03, 0x0117d9c0334fc65d, 0x16b89dd2886e573f)
    requires Twelve(d, 0x4746454443424140, 0x0000000000000000, 0x0000000000000000, 0x0000000000000000,
                       0x0000000000000000, 0x0000000000000000, 0x0000000000000000, 0x0000000000000000,
                       0x0000000000000000, 0x0000000000000000, 0x0000000000000000, 0x0800000000000000)
    ensures Twelve(AddData(h, d), 0x71dc8ffa2f6797b9, 0x15fc4af67400ff45, 0x05ad6e6b02ae3c05,
                                  0x72c2a9c49fe61dcf, 0x5017a6fa3600edcb, 0xf92758bca62bbafa,
                                  0x0d9491c981e0a374, 0x8a047323eb0aba9d, 0x7b358504af775454,
                                  0x11f5581883f13e03, 0x0117d9c0334fc65d, 0x1eb89dd2886e573f)
  {
  }

  lemma {:induction false} TwoHundredBytesState()
    ensures 192 % BLOCK_SIZE == 0
    ensures LongState(Buf(200), 0, 0) ==
            End(Block(LastBlock(Buf(200)[192..])), Absorb(Seeded(0, 0), Buf(200)[..192]))
  {
    hide End, Block, LastBlock, Absorb;
  }

  lemma {:induction false} TwoHundredBytesHash()
    ensures Hash128(Buf(200), 0, 0) == (0x60a579a81f6f7162, 0xc48e23a52daf0313)
  {
    hide LongState, AddData, EndPartial, Block, LastBlock, Absorb, Seeded, Buf;
    TwoHundredBytesState();
    AbsorbedTwoBlocks();
    LastBlockWords();
    var h, d := Absorb(Seeded(0, 0), Buf(200)[..192]), Block(LastBlock(Buf(200)[192..]));
    AddedLast(h, d);
    FirstEnd(AddData(h, d));
    SecondEnd(EndPartial(AddData(h, d)));
    ThirdEnd(EndPartial(EndPartial(AddData(h, d))));
  }
}
