/**
 The mixing rounds of SpookyHash V2 (common/SpookyV2.h): 64-bit words, the rounds written on a
 sequence of state words, the in-place methods, and explicit inverses.

 Every source line of Mix, EndPartial, ShortMix and ShortEnd is the same step at another position
 and with another rotation; `MixRow`, `EndRow`, `ShortMixRow` and `ShortEndRow` are these steps.
*/
module SpookyMix {

  type Word = bv64

  type Shift = k: bv7 | 0 < k < 64 witness 1

  type Words12 = s: seq<Word> | |s| == 12 witness seq(12, i => 0)

  type Words4 = s: seq<Word> | |s| == 4 witness seq(4, i => 0)

  function Rot64(x: Word, k: Shift): Word {
    (x << k) | (x >> (64 - k))
  }

  // The word operations have names so that the proofs can treat them as such.

  function Plus(x: Word, y: Word): Word { x + y }

  function Minus(x: Word, y: Word): Word { x - y }

  function Xor(x: Word, y: Word): Word { x ^ y }

  const SC_CONST: Word := 0xdeadbeefdeadbeef

  // ----- one source line of each round ------------------------------------------------------

  const MIX_ROT: seq<Shift> := [11, 32, 43, 31, 17, 28, 39, 57, 55, 54, 22, 46]
  const END_ROT: seq<Shift> := [44, 15, 34, 21, 38, 33, 10, 13, 38, 53, 42, 54]
  const SHORT_MIX_ROT: seq<Shift> := [50, 52, 30, 41, 54, 48, 38, 37, 62, 34, 5, 36]
  const SHORT_END_ROT: seq<Shift> := [15, 52, 26, 51, 28, 9, 47, 54, 32, 25, 63]

  /** The words a line of Mix works on: its own, its neighbours, and the one it xors from. */
  ghost predicate Apart(i: nat, b: nat, c: nat, e: nat, f: nat) {
    && i < 12 && b < 12 && c < 12 && e < 12 && f < 12
    && i != b && i != c && i != e && i != f && b != c && b != e && b != f && c != e && c != f && e != f
  }

  /** si += d; sc ^= sf; se ^= si; si = Rot64(si, k); se += sb. */
  function MixStep(s: Words12, i: nat, b: nat, c: nat, e: nat, f: nat, d: Word, k: Shift): Words12
    requires i < 12 && b < 12 && c < 12 && e < 12 && f < 12
  {
    var a := Plus(s[i], d);
    s[c := Xor(s[c], s[f])][e := Plus(Xor(s[e], a), s[b])][i := Rot64(a, k)]
  }

  /** si += d; s(i+2) ^= s(i+10); s(i+11) ^= si; si = Rot64(si, k); s(i+11) += s(i+1). */
  function MixRow(s: Words12, i: nat, d: Word, k: Shift): Words12
    requires i < 12
  {
    MixStep(s, i, (i + 1) % 12, (i + 2) % 12, (i + 11) % 12, (i + 10) % 12, d, k)
  }

  /** h(i+11) += h(i+1); h(i+2) ^= h(i+11); h(i+1) = Rot64(h(i+1), k). */
  function EndRow(h: Words12, i: nat, k: Shift): Words12
    requires i < 12
  {
    EndStep(h, (i + 1) % 12, (i + 2) % 12, (i + 11) % 12, k)
  }

  function EndStep(h: Words12, b: nat, c: nat, e: nat, k: Shift): Words12
    requires b < 12 && c < 12 && e < 12
  {
    h[e := Plus(h[e], h[b])][c := Xor(h[c], Plus(h[e], h[b]))][b := Rot64(h[b], k)]
  }

  /** h(i+2) = Rot64(h(i+2), k); h(i+2) += h(i+3); hi ^= h(i+2). */
  function ShortMixRow(h: Words4, i: nat, k: Shift): Words4
    requires i < 12
  {
    ShortMixStep(h, i % 4, (i + 2) % 4, (i + 3) % 4, k)
  }

  function ShortMixStep(h: Words4, a: nat, b: nat, c: nat, k: Shift): Words4
    requires a < 4 && b < 4 && c < 4
  {
    var t := Plus(Rot64(h[b], k), h[c]);
    h[b := t][a := Xor(h[a], t)]
  }

  /** h(i+3) ^= h(i+2); h(i+2) = Rot64(h(i+2), k); h(i+3) += h(i+2). */
  function ShortEndRow(h: Words4, i: nat, k: Shift): Words4
    requires i < 11
  {
    ShortEndStep(h, (i + 2) % 4, (i + 3) % 4, k)
  }

  function ShortEndStep(h: Words4, b: nat, c: nat, k: Shift): Words4
    requires b < 4 && c < 4
  {
    var t := Rot64(h[b], k);
    h[b := t][c := Plus(Xor(h[c], h[b]), t)]
  }

  // ----- the rounds: the first n lines ------------------------------------------------------

  function MixRows(s: Words12, data: Words12, n: nat): Words12
    requires n <= 12
  {
    if n == 0 then s else MixRow(MixRows(s, data, n - 1), n - 1, data[n - 1], MIX_ROT[n - 1])
  }

  function EndRows(h: Words12, n: nat): Words12
    requires n <= 12
  {
    if n == 0 then h else EndRow(EndRows(h, n - 1), n - 1, END_ROT[n - 1])
  }

  function ShortMixRows(h: Words4, n: nat): Words4
    requires n <= 12
  {
    if n == 0 then h else ShortMixRow(ShortMixRows(h, n - 1), n - 1, SHORT_MIX_ROT[n - 1])
  }

  function ShortEndRows(h: Words4, n: nat): Words4
    requires n <= 11
  {
    if n == 0 then h else ShortEndRow(ShortEndRows(h, n - 1), n - 1, SHORT_END_ROT[n - 1])
  }

  function Mix(s: Words12, data: Words12): Words12 { MixRows(s, data, 12) }

  function EndPartial(h: Words12): Words12 { EndRows(h, 12) }

  function ShortMix(h: Words4): Words4 { ShortMixRows(h, 12) }

  function ShortEnd(h: Words4): Words4 { ShortEndRows(h, 11) }

  function AddData(h: Words12, data: Words12): Words12 {
    seq(12, i requires 0 <= i < 12 => Plus(h[i], data[i]))
  }

  function End(data: Words12, h: Words12): Words12 {
    EndPartial(EndPartial(EndPartial(AddData(h, data))))
  }

  // ----- their inverses ---------------------------------------------------------------------

  function UnMixStep(s: Words12, i: nat, b: nat, c: nat, e: nat, f: nat, d: Word, k: Shift): Words12
    requires i < 12 && b < 12 && c < 12 && e < 12 && f < 12
  {
    var a := Rot64(s[i], 64 - k);
    s[i := Minus(a, d)][e := Xor(Minus(s[e], s[b]), a)][c := Xor(s[c], s[f])]
  }

  function UnMixRow(s: Words12, i: nat, d: Word, k: Shift): Words12
    requires i < 12
  {
    UnMixStep(s, i, (i + 1) % 12, (i + 2) % 12, (i + 11) % 12, (i + 10) % 12, d, k)
  }

  function UnEndRow(h: Words12, i: nat, k: Shift): Words12
    requires i < 12
  {
    UnEndStep(h, (i + 1) % 12, (i + 2) % 12, (i + 11) % 12, k)
  }

  function UnEndStep(h: Words12, b: nat, c: nat, e: nat, k: Shift): Words12
    requires b < 12 && c < 12 && e < 12
  {
    var t := Rot64(h[b], 64 - k);
    h[b := t][c := Xor(h[c], h[e])][e := Minus(h[e], t)]
  }

  function UnShortMixRow(h: Words4, i: nat, k: Shift): Words4
    requires i < 12
  {
    UnShortMixStep(h, i % 4, (i + 2) % 4, (i + 3) % 4, k)
  }

  function UnShortMixStep(h: Words4, a: nat, b: nat, c: nat, k: Shift): Words4
    requires a < 4 && b < 4 && c < 4
  {
    h[a := Xor(h[a], h[b])][b := Rot64(Minus(h[b], h[c]), 64 - k)]
  }

  function UnShortEndRow(h: Words4, i: nat, k: Shift): Words4
    requires i < 11
  {
    UnShortEndStep(h, (i + 2) % 4, (i + 3) % 4, k)
  }

  function UnShortEndStep(h: Words4, b: nat, c: nat, k: Shift): Words4
    requires b < 4 && c < 4
  {
    var t := Rot64(h[b], 64 - k);
    h[b := t][c := Xor(Minus(h[c], h[b]), t)]
  }

  function UnMixRows(s: Words12, data: Words12, n: nat): Words12
    requires n <= 12
    decreases n
  {
    if n == 0 then s else UnMixRows(UnMixRow(s, n - 1, data[n - 1], MIX_ROT[n - 1]), data, n - 1)
  }

  function UnEndRows(h: Words12, n: nat): Words12
    requires n <= 12
    decreases n
  {
    if n == 0 then h else UnEndRows(UnEndRow(h, n - 1, END_ROT[n - 1]), n - 1)
  }

  function UnShortMixRows(h: Words4, n: nat): Words4
    requires n <= 12
    decreases n
  {
    if n == 0 then h else UnShortMixRows(UnShortMixRow(h, n - 1, SHORT_MIX_ROT[n - 1]), n - 1)
  }

  function UnShortEndRows(h: Words4, n: nat): Words4
    requires n <= 11
    decreases n
  {
    if n == 0 then h else UnShortEndRows(UnShortEndRow(h, n - 1, SHORT_END_ROT[n - 1]), n - 1)
  }

  // ----- rotations --------------------------------------------------------------------------

  // One lemma a shift: the solver decides each of them at once for a constant.
  lemma {:induction false} Turn1(x: Word)
    ensures Rot64(Rot64(x, 1), 63) == x && Rot64(Rot64(x, 63), 1) == x
  {}
  lemma {:induction false} Turn2(x: Word)
    ensures Rot64(Rot64(x, 2), 62) == x && Rot64(Rot64(x, 62), 2) == x
  {}
  lemma {:induction false} Turn3(x: Word)
    ensures Rot64(Rot64(x, 3), 61) == x && Rot64(Rot64(x, 61), 3) == x
  {}
  lemma {:induction false} Turn4(x: Word)
    ensures Rot64(Rot64(x, 4), 60) == x && Rot64(Rot64(x, 60), 4) == x
  {}
  lemma {:induction false} Turn5(x: Word)
    ensures Rot64(Rot64(x, 5), 59) == x && Rot64(Rot64(x, 59), 5) == x
  {}
  lemma {:induction false} Turn6(x: Word)
    ensures Rot64(Rot64(x, 6), 58) == x && Rot64(Rot64(x, 58), 6) == x
  {}
  lemma {:induction false} Turn7(x: Word)
    ensures Rot64(Rot64(x, 7), 57) == x && Rot64(Rot64(x, 57), 7) == x
  {}
  lemma {:induction false} Turn8(x: Word)
    ensures Rot64(Rot64(x, 8), 56) == x && Rot64(Rot64(x, 56), 8) == x
  {}
  lemma {:induction false} Turn9(x: Word)
    ensures Rot64(Rot64(x, 9), 55) == x && Rot64(Rot64(x, 55), 9) == x
  {}
  lemma {:induction false} Turn10(x: Word)
    ensures Rot64(Rot64(x, 10), 54) == x && Rot64(Rot64(x, 54), 10) == x
  {}
  lemma {:induction false} Turn11(x: Word)
    ensures Rot64(Rot64(x, 11), 53) == x && Rot64(Rot64(x, 53), 11) == x
  {}
  lemma {:induction false} Turn12(x: Word)
    ensures Rot64(Rot64(x, 12), 52) == x && Rot64(Rot64(x, 52), 12) == x
  {}
  lemma {:induction false} Turn13(x: Word)
    ensures Rot64(Rot64(x, 13), 51) == x && Rot64(Rot64(x, 51), 13) == x
  {}
  lemma {:induction false} Turn14(x: Word)
    ensures Rot64(Rot64(x, 14), 50) == x && Rot64(Rot64(x, 50), 14) == x
  {}
  lemma {:induction false} Turn15(x: Word)
    ensures Rot64(Rot64(x, 15), 49) == x && Rot64(Rot64(x, 49), 15) == x
  {}
  lemma {:induction false} Turn16(x: Word)
    ensures Rot64(Rot64(x, 16), 48) == x && Rot64(Rot64(x, 48), 16) == x
  {}
  lemma {:induction false} Turn17(x: Word)
    ensures Rot64(Rot64(x, 17), 47) == x && Rot64(Rot64(x, 47), 17) == x
  {}
  lemma {:induction false} Turn18(x: Word)
    ensures Rot64(Rot64(x, 18), 46) == x && Rot64(Rot64(x, 46), 18) == x
  {}
  lemma {:induction false} Turn19(x: Word)
    ensures Rot64(Rot64(x, 19), 45) == x && Rot64(Rot64(x, 45), 19) == x
  {}
  lemma {:induction false} Turn20(x: Word)
    ensures Rot64(Rot64(x, 20), 44) == x && Rot64(Rot64(x, 44), 20) == x
  {}
  lemma {:induction false} Turn21(x: Word)
    ensures Rot64(Rot64(x, 21), 43) == x && Rot64(Rot64(x, 43), 21) == x
  {}
  lemma {:induction false} Turn22(x: Word)
    ensures Rot64(Rot64(x, 22), 42) == x && Rot64(Rot64(x, 42), 22) == x
  {}
  lemma {:induction false} Turn23(x: Word)
    ensures Rot64(Rot64(x, 23), 41) == x && Rot64(Rot64(x, 41), 23) == x
  {}
  lemma {:induction false} Turn24(x: Word)
    ensures Rot64(Rot64(x, 24), 40) == x && Rot64(Rot64(x, 40), 24) == x
  {}
  lemma {:induction false} Turn25(x: Word)
    ensures Rot64(Rot64(x, 25), 39) == x && Rot64(Rot64(x, 39), 25) == x
  {}
  lemma {:induction false} Turn26(x: Word)
    ensures Rot64(Rot64(x, 26), 38) == x && Rot64(Rot64(x, 38), 26) == x
  {}
  lemma {:induction false} Turn27(x: Word)
    ensures Rot64(Rot64(x, 27), 37) == x && Rot64(Rot64(x, 37), 27) == x
  {}
  lemma {:induction false} Turn28(x: Word)
    ensures Rot64(Rot64(x, 28), 36) == x && Rot64(Rot64(x, 36), 28) == x
  {}
  lemma {:induction false} Turn29(x: Word)
    ensures Rot64(Rot64(x, 29), 35) == x && Rot64(Rot64(x, 35), 29) == x
  {}
  lemma {:induction false} Turn30(x: Word)
    ensures Rot64(Rot64(x, 30), 34) == x && Rot64(Rot64(x, 34), 30) == x
  {}
  lemma {:induction false} Turn31(x: Word)
    ensures Rot64(Rot64(x, 31), 33) == x && Rot64(Rot64(x, 33), 31) == x
  {}
  lemma {:induction false} Turn32(x: Word)
    ensures Rot64(Rot64(x, 32), 32) == x && Rot64(Rot64(x, 32), 32) == x
  {}

  lemma {:induction false} RotBackFrom1(x: Word, k: Shift)
    requires 1 <= k <= 8 || 56 <= k <= 63
    ensures Rot64(Rot64(x, k), 64 - k) == x
  {
    hide Rot64;
    if k == 1 || k == 63 { Turn1(x); }
    else if k == 2 || k == 62 { Turn2(x); }
    else if k == 3 || k == 61 { Turn3(x); }
    else if k == 4 || k == 60 { Turn4(x); }
    else if k == 5 || k == 59 { Turn5(x); }
    else if k == 6 || k == 58 { Turn6(x); }
    else if k == 7 || k == 57 { Turn7(x); }
    else { Turn8(x); }
  }

  lemma {:induction false} RotBackFrom9(x: Word, k: Shift)
    requires 9 <= k <= 16 || 48 <= k <= 55
    ensures Rot64(Rot64(x, k), 64 - k) == x
  {
    hide Rot64;
    if k == 9 || k == 55 { Turn9(x); }
    else if k == 10 || k == 54 { Turn10(x); }
    else if k == 11 || k == 53 { Turn11(x); }
    else if k == 12 || k == 52 { Turn12(x); }
    else if k == 13 || k == 51 { Turn13(x); }
    else if k == 14 || k == 50 { Turn14(x); }
    else if k == 15 || k == 49 { Turn15(x); }
    else { Turn16(x); }
  }

  lemma {:induction false} RotBackFrom17(x: Word, k: Shift)
    requires 17 <= k <= 24 || 40 <= k <= 47
    ensures Rot64(Rot64(x, k), 64 - k) == x
  {
    hide Rot64;
    if k == 17 || k == 47 { Turn17(x); }
    else if k == 18 || k == 46 { Turn18(x); }
    else if k == 19 || k == 45 { Turn19(x); }
    else if k == 20 || k == 44 { Turn20(x); }
    else if k == 21 || k == 43 { Turn21(x); }
    else if k == 22 || k == 42 { Turn22(x); }
    else if k == 23 || k == 41 { Turn23(x); }
    else { Turn24(x); }
  }

  lemma {:induction false} RotBackFrom25(x: Word, k: Shift)
    requires 25 <= k <= 32 || 32 <= k <= 39
    ensures Rot64(Rot64(x, k), 64 - k) == x
  {
    hide Rot64;
    if k == 25 || k == 39 { Turn25(x); }
    else if k == 26 || k == 38 { Turn26(x); }
    else if k == 27 || k == 37 { Turn27(x); }
    else if k == 28 || k == 36 { Turn28(x); }
    else if k == 29 || k == 35 { Turn29(x); }
    else if k == 30 || k == 34 { Turn30(x); }
    else if k == 31 || k == 33 { Turn31(x); }
    else { Turn32(x); }
  }

  /** A rotation by k is undone by a rotation by 64 - k. */
  lemma {:induction false} RotBack(x: Word, k: Shift)
    ensures Rot64(Rot64(x, k), 64 - k) == x
  {
    hide Rot64;
    if k <= 8 || 56 <= k { RotBackFrom1(x, k); }
    else if k <= 16 || 48 <= k { RotBackFrom9(x, k); }
    else if k <= 24 || 40 <= k { RotBackFrom17(x, k); }
    else { RotBackFrom25(x, k); }
  }

  lemma {:induction false} RotForth(x: Word, k: Shift)
    ensures Rot64(Rot64(x, 64 - k), k) == x
  {
    hide Rot64;
    RotBack(x, 64 - k);
  }

  lemma {:induction false} PlusMinus(x: Word, y: Word)
    ensures Minus(Plus(x, y), y) == x
  {
    assert (x + y) - y == x;
    assert Minus(x + y, y) == (x + y) - y;
  }

  lemma {:induction false} MinusPlus(x: Word, y: Word)
    ensures Plus(Minus(x, y), y) == x
  {
    assert (x - y) + y == x;
    assert Plus(x - y, y) == (x - y) + y;
  }

  lemma {:induction false} XorXor(x: Word, y: Word)
    ensures Xor(Xor(x, y), y) == x
  {
  }

  lemma {:induction false} WordLaws(x: Word, y: Word)
    ensures Minus(Plus(x, y), y) == x && Plus(Minus(x, y), y) == x && Xor(Xor(x, y), y) == x
  {
    hide Plus, Minus, Xor;
    PlusMinus(x, y);
    MinusPlus(x, y);
    XorXor(x, y);
  }

  // ----- every line can be undone -----------------------------------------------------------

  lemma {:induction false} MixStepUndone(s: Words12, i: nat, b: nat, c: nat, e: nat, f: nat, d: Word, k: Shift)
    requires Apart(i, b, c, e, f)
    ensures UnMixStep(MixStep(s, i, b, c, e, f, d, k), i, b, c, e, f, d, k) == s
  {
    hide Rot64, Plus, Minus, Xor;
    var a := Plus(s[i], d);
    RotBack(a, k);
    WordLaws(s[i], d);
    WordLaws(s[c], s[f]);
    WordLaws(s[e], a);
    WordLaws(Xor(s[e], a), s[b]);
  }

  lemma {:induction false} MixStepRedone(s: Words12, i: nat, b: nat, c: nat, e: nat, f: nat, d: Word, k: Shift)
    requires Apart(i, b, c, e, f)
    ensures MixStep(UnMixStep(s, i, b, c, e, f, d, k), i, b, c, e, f, d, k) == s
  {
    hide Rot64, Plus, Minus, Xor;
    var a := Rot64(s[i], 64 - k);
    RotForth(s[i], k);
    WordLaws(a, d);
    WordLaws(s[c], s[f]);
    WordLaws(Minus(s[e], s[b]), a);
    WordLaws(s[e], s[b]);
  }

  lemma {:induction false} EndStepUndone(h: Words12, b: nat, c: nat, e: nat, k: Shift)
    requires b < 12 && c < 12 && e < 12 && b != c && c != e && b != e
    ensures UnEndStep(EndStep(h, b, c, e, k), b, c, e, k) == h
  {
    hide Rot64, Plus, Minus, Xor;
    RotBack(h[b], k);
    WordLaws(h[e], h[b]);
    WordLaws(h[c], Plus(h[e], h[b]));
  }

  lemma {:induction false} EndStepRedone(h: Words12, b: nat, c: nat, e: nat, k: Shift)
    requires b < 12 && c < 12 && e < 12 && b != c && c != e && b != e
    ensures EndStep(UnEndStep(h, b, c, e, k), b, c, e, k) == h
  {
    hide Rot64, Plus, Minus, Xor;
    RotForth(h[b], k);
    WordLaws(h[e], Rot64(h[b], 64 - k));
    WordLaws(h[c], h[e]);
  }

  lemma {:induction false} ShortMixStepUndone(h: Words4, a: nat, b: nat, c: nat, k: Shift)
    requires a < 4 && b < 4 && c < 4 && a != b && b != c && a != c
    ensures UnShortMixStep(ShortMixStep(h, a, b, c, k), a, b, c, k) == h
  {
    hide Rot64, Plus, Minus, Xor;
    RotBack(h[b], k);
    WordLaws(Rot64(h[b], k), h[c]);
    WordLaws(h[a], Plus(Rot64(h[b], k), h[c]));
  }

  lemma {:induction false} ShortMixStepRedone(h: Words4, a: nat, b: nat, c: nat, k: Shift)
    requires a < 4 && b < 4 && c < 4 && a != b && b != c && a != c
    ensures ShortMixStep(UnShortMixStep(h, a, b, c, k), a, b, c, k) == h
  {
    hide Rot64, Plus, Minus, Xor;
    RotForth(Minus(h[b], h[c]), k);
    WordLaws(h[b], h[c]);
    WordLaws(h[a], h[b]);
  }

  lemma {:induction false} ShortEndStepUndone(h: Words4, b: nat, c: nat, k: Shift)
    requires b < 4 && c < 4 && b != c
    ensures UnShortEndStep(ShortEndStep(h, b, c, k), b, c, k) == h
  {
    hide Rot64, Plus, Minus, Xor;
    RotBack(h[b], k);
    WordLaws(h[c], h[b]);
    WordLaws(Xor(h[c], h[b]), Rot64(h[b], k));
  }

  lemma {:induction false} ShortEndStepRedone(h: Words4, b: nat, c: nat, k: Shift)
    requires b < 4 && c < 4 && b != c
    ensures ShortEndStep(UnShortEndStep(h, b, c, k), b, c, k) == h
  {
    hide Rot64, Plus, Minus, Xor;
    var t := Rot64(h[b], 64 - k);
    RotForth(h[b], k);
    WordLaws(Minus(h[c], h[b]), t);
    WordLaws(h[c], h[b]);
  }

  // ----- the rounds are permutations --------------------------------------------------------

  lemma {:induction false} MixRowsUndone(s: Words12, data: Words12, n: nat)
    requires n <= 12
    ensures UnMixRows(MixRows(s, data, n), data, n) == s
  {
    hide MixStep, UnMixStep;
    if n > 0 {
      var i := n - 1;
      MixStepUndone(MixRows(s, data, i), i, (i + 1) % 12, (i + 2) % 12, (i + 11) % 12, (i + 10) % 12,
                    data[i], MIX_ROT[i]);
      MixRowsUndone(s, data, i);
    }
  }

  lemma {:induction false} MixRowsRedone(s: Words12, data: Words12, n: nat)
    requires n <= 12
    ensures MixRows(UnMixRows(s, data, n), data, n) == s
    decreases n
  {
    hide MixStep, UnMixStep;
    if n > 0 {
      var i := n - 1;
      MixStepRedone(s, i, (i + 1) % 12, (i + 2) % 12, (i + 11) % 12, (i + 10) % 12, data[i], MIX_ROT[i]);
      MixRowsRedone(UnMixRow(s, i, data[i], MIX_ROT[i]), data, i);
    }
  }

  /** For every block of data, Mix is a bijection on the twelve words of the state. */
  lemma {:induction false} MixIsAPermutation(s: Words12, data: Words12)
    ensures UnMixRows(Mix(s, data), data, 12) == s
    ensures Mix(UnMixRows(s, data, 12), data) == s
  {
    hide MixRows, UnMixRows;
    MixRowsUndone(s, data, 12);
    MixRowsRedone(s, data, 12);
  }

  lemma {:induction false} EndRowUndone(h: Words12, i: nat, k: Shift)
    requires i < 12
    ensures UnEndRow(EndRow(h, i, k), i, k) == h
  {
    hide EndStep, UnEndStep;
    EndStepUndone(h, (i + 1) % 12, (i + 2) % 12, (i + 11) % 12, k);
  }

  lemma {:induction false} EndRowsUndone(h: Words12, n: nat)
    requires n <= 12
    ensures UnEndRows(EndRows(h, n), n) == h
  {
    hide EndRow, UnEndRow;
    if n > 0 {
      EndRowUndone(EndRows(h, n - 1), n - 1, END_ROT[n - 1]);
      EndRowsUndone(h, n - 1);
    }
  }

  lemma {:induction false} EndRowsRedone(h: Words12, n: nat)
    requires n <= 12
    ensures EndRows(UnEndRows(h, n), n) == h
    decreases n
  {
    hide EndStep, UnEndStep;
    if n > 0 {
      var i := n - 1;
      EndStepRedone(h, (i + 1) % 12, (i + 2) % 12, (i + 11) % 12, END_ROT[i]);
      EndRowsRedone(UnEndRow(h, n - 1, END_ROT[n - 1]), n - 1);
    }
  }

  lemma {:induction false} EndPartialIsAPermutation(h: Words12)
    ensures UnEndRows(EndPartial(h), 12) == h
    ensures EndPartial(UnEndRows(h, 12)) == h
  {
    hide EndRows, UnEndRows;
    EndRowsUndone(h, 12);
    EndRowsRedone(h, 12);
  }

  lemma {:induction false} ShortMixRowUndone(h: Words4, i: nat, k: Shift)
    requires i < 12
    ensures UnShortMixRow(ShortMixRow(h, i, k), i, k) == h
  {
    hide ShortMixStep, UnShortMixStep;
    ShortMixStepUndone(h, i % 4, (i + 2) % 4, (i + 3) % 4, k);
  }

  lemma {:induction false} ShortMixRowsUndone(h: Words4, n: nat)
    requires n <= 12
    ensures UnShortMixRows(ShortMixRows(h, n), n) == h
  {
    hide ShortMixRow, UnShortMixRow;
    if n > 0 {
      ShortMixRowUndone(ShortMixRows(h, n - 1), n - 1, SHORT_MIX_ROT[n - 1]);
      ShortMixRowsUndone(h, n - 1);
    }
  }

  lemma {:induction false} ShortMixRowsRedone(h: Words4, n: nat)
    requires n <= 12
    ensures ShortMixRows(UnShortMixRows(h, n), n) == h
    decreases n
  {
    hide ShortMixStep, UnShortMixStep;
    if n > 0 {
      var i := n - 1;
      ShortMixStepRedone(h, i % 4, (i + 2) % 4, (i + 3) % 4, SHORT_MIX_ROT[i]);
      ShortMixRowsRedone(UnShortMixRow(h, n - 1, SHORT_MIX_ROT[n - 1]), n - 1);
    }
  }

  lemma {:induction false} ShortMixIsAPermutation(h: Words4)
    ensures UnShortMixRows(ShortMix(h), 12) == h
    ensures ShortMix(UnShortMixRows(h, 12)) == h
  {
    hide ShortMixRows, UnShortMixRows;
    ShortMixRowsUndone(h, 12);
    ShortMixRowsRedone(h, 12);
  }

  lemma {:induction false} ShortEndRowsUndone(h: Words4, n: nat)
    requires n <= 11
    ensures UnShortEndRows(ShortEndRows(h, n), n) == h
  {
    hide ShortEndStep, UnShortEndStep;
    if n > 0 {
      var i := n - 1;
      ShortEndStepUndone(ShortEndRows(h, i), (i + 2) % 4, (i + 3) % 4, SHORT_END_ROT[i]);
      ShortEndRowsUndone(h, n - 1);
    }
  }

  lemma {:induction false} ShortEndRowsRedone(h: Words4, n: nat)
    requires n <= 11
    ensures ShortEndRows(UnShortEndRows(h, n), n) == h
    decreases n
  {
    hide ShortEndStep, UnShortEndStep;
    if n > 0 {
      var i := n - 1;
      ShortEndStepRedone(h, (i + 2) % 4, (i + 3) % 4, SHORT_END_ROT[i]);
      ShortEndRowsRedone(UnShortEndRow(h, n - 1, SHORT_END_ROT[n - 1]), n - 1);
    }
  }

  lemma {:induction false} ShortEndIsAPermutation(h: Words4)
    ensures UnShortEndRows(ShortEnd(h), 11) == h
    ensures ShortEnd(UnShortEndRows(h, 11)) == h
  {
    hide ShortEndRows, UnShortEndRows;
    ShortEndRowsUndone(h, 11);
    ShortEndRowsRedone(h, 11);
  }

  // ----- the rounds in place, line by line as the source has them ---------------------------

  /** One line of Mix: s[i] += d; s[c] ^= s[f]; s[e] ^= s[i]; s[i] = Rot64(s[i], k); s[e] += s[b]. */
  method MixLine(s: array<Word>, i: nat, d: Word, c: nat, f: nat, e: nat, k: Shift, b: nat)
    requires s.Length == 12 && Apart(i, b, c, e, f)
    modifies s
    ensures s[..] == MixStep(old(s[..]), i, b, c, e, f, d, k)
  {
    hide Plus, Xor, Rot64;
    s[i] := Plus(s[i], d);
    s[c] := Xor(s[c], s[f]);
    s[e] := Xor(s[e], s[i]);
    s[i] := Rot64(s[i], k);
    s[e] := Plus(s[e], s[b]);
  }

  /** The lines of Mix, four at a time. */
  method MixFirstLines(s: array<Word>, data: Words12, ghost s0: Words12)
    requires s.Length == 12 && s[..] == MixRows(s0, data, 0)
    modifies s
    ensures s[..] == MixRows(s0, data, 4)
  {
    hide MixStep;
    MixLine(s, 0, data[0], 2, 10, 11, 11, 1);
    assert s[..] == MixRows(s0, data, 1);
    MixLine(s, 1, data[1], 3, 11, 0, 32, 2);
    assert s[..] == MixRows(s0, data, 2);
    MixLine(s, 2, data[2], 4, 0, 1, 43, 3);
    assert s[..] == MixRows(s0, data, 3);
    MixLine(s, 3, data[3], 5, 1, 2, 31, 4);
    assert s[..] == MixRows(s0, data, 4);
  }

  method MixMiddleLines(s: array<Word>, data: Words12, ghost s0: Words12)
    requires s.Length == 12 && s[..] == MixRows(s0, data, 4)
    modifies s
    ensures s[..] == MixRows(s0, data, 8)
  {
    hide MixStep;
    MixLine(s, 4, data[4], 6, 2, 3, 17, 5);
    assert s[..] == MixRows(s0, data, 5);
    MixLine(s, 5, data[5], 7, 3, 4, 28, 6);
    assert s[..] == MixRows(s0, data, 6);
    MixLine(s, 6, data[6], 8, 4, 5, 39, 7);
    assert s[..] == MixRows(s0, data, 7);
    MixLine(s, 7, data[7], 9, 5, 6, 57, 8);
    assert s[..] == MixRows(s0, data, 8);
  }

  method MixLastLines(s: array<Word>, data: Words12, ghost s0: Words12)
    requires s.Length == 12 && s[..] == MixRows(s0, data, 8)
    modifies s
    ensures s[..] == MixRows(s0, data, 12)
  {
    hide MixStep;
    MixLine(s, 8, data[8], 10, 6, 7, 55, 9);
    assert s[..] == MixRows(s0, data, 9);
    MixLine(s, 9, data[9], 11, 7, 8, 54, 10);
    assert s[..] == MixRows(s0, data, 10);
    MixLine(s, 10, data[10], 0, 8, 9, 22, 11);
    assert s[..] == MixRows(s0, data, 11);
    MixLine(s, 11, data[11], 1, 9, 10, 46, 0);
    assert s[..] == MixRows(s0, data, 12);
  }

  method MixInPlace(s: array<Word>, data: Words12)
    requires s.Length == 12
    modifies s
    ensures s[..] == Mix(old(s[..]), data)
  {
    hide MixRows;
    ghost var s0: Words12 := s[..];
    MixNothing(s0, data);
    MixFirstLines(s, data, s0);
    MixMiddleLines(s, data, s0);
    MixLastLines(s, data, s0);
  }

  lemma {:induction false} MixNothing(s: Words12, data: Words12)
    ensures MixRows(s, data, 0) == s
  {
  }

  /** One line of EndPartial: h[e] += h[b]; h[c] ^= h[e]; h[b] = Rot64(h[b], k). */
  method EndLine(h: array<Word>, e: nat, b: nat, c: nat, k: Shift)
    requires h.Length == 12 && b < 12 && c < 12 && e < 12 && b != c && c != e && b != e
    modifies h
    ensures h[..] == EndStep(old(h[..]), b, c, e, k)
  {
    h[e] := Plus(h[e], h[b]);
    h[c] := Xor(h[c], h[e]);
    h[b] := Rot64(h[b], k);
  }

  method EndPartialInPlace(h: array<Word>)
    requires h.Length == 12
    modifies h
    ensures h[..] == EndPartial(old(h[..]))
  {
    hide EndStep;
    ghost var h0: Words12 := h[..];
    EndLine(h, 11, 1, 2, 44);
    assert h[..] == EndRows(h0, 1);
    EndLine(h, 0, 2, 3, 15);
    assert h[..] == EndRows(h0, 2);
    EndLine(h, 1, 3, 4, 34);
    assert h[..] == EndRows(h0, 3);
    EndLine(h, 2, 4, 5, 21);
    assert h[..] == EndRows(h0, 4);
    EndLine(h, 3, 5, 6, 38);
    assert h[..] == EndRows(h0, 5);
    EndLine(h, 4, 6, 7, 33);
    assert h[..] == EndRows(h0, 6);
    EndLine(h, 5, 7, 8, 10);
    assert h[..] == EndRows(h0, 7);
    EndLine(h, 6, 8, 9, 13);
    assert h[..] == EndRows(h0, 8);
    EndLine(h, 7, 9, 10, 38);
    assert h[..] == EndRows(h0, 9);
    EndLine(h, 8, 10, 11, 53);
    assert h[..] == EndRows(h0, 10);
    EndLine(h, 9, 11, 0, 42);
    assert h[..] == EndRows(h0, 11);
    EndLine(h, 10, 0, 1, 54);
    assert h[..] == EndRows(h0, 12);
  }

  method EndInPlace(data: Words12, h: array<Word>)
    requires h.Length == 12
    modifies h
    ensures h[..] == End(data, old(h[..]))
  {
    hide EndPartial;
    for i := 0 to 12
      invariant forall j :: 0 <= j < 12 ==> h[j] == if j < i then Plus(old(h[j]), data[j]) else old(h[j])
    {
      h[i] := Plus(h[i], data[i]);
    }
    assert h[..] == AddData(old(h[..]), data);
    EndPartialInPlace(h);
    EndPartialInPlace(h);
    EndPartialInPlace(h);
  }

  /** One line of ShortMix: h[b] = Rot64(h[b], k); h[b] += h[c]; h[a] ^= h[b]. */
  method ShortMixLine(h: array<Word>, b: nat, k: Shift, c: nat, a: nat)
    requires h.Length == 4 && a < 4 && b < 4 && c < 4 && a != b && b != c && a != c
    modifies h
    ensures h[..] == ShortMixStep(old(h[..]), a, b, c, k)
  {
    h[b] := Rot64(h[b], k);
    h[b] := Plus(h[b], h[c]);
    h[a] := Xor(h[a], h[b]);
  }

  method ShortMixInPlace(h: array<Word>)
    requires h.Length == 4
    modifies h
    ensures h[..] == ShortMix(old(h[..]))
  {
    hide ShortMixStep;
    ghost var h0: Words4 := h[..];
    ShortMixLine(h, 2, 50, 3, 0);
    assert h[..] == ShortMixRows(h0, 1);
    ShortMixLine(h, 3, 52, 0, 1);
    assert h[..] == ShortMixRows(h0, 2);
    ShortMixLine(h, 0, 30, 1, 2);
    assert h[..] == ShortMixRows(h0, 3);
    ShortMixLine(h, 1, 41, 2, 3);
    assert h[..] == ShortMixRows(h0, 4);
    ShortMixLine(h, 2, 54, 3, 0);
    assert h[..] == ShortMixRows(h0, 5);
    ShortMixLine(h, 3, 48, 0, 1);
    assert h[..] == ShortMixRows(h0, 6);
    ShortMixLine(h, 0, 38, 1, 2);
    assert h[..] == ShortMixRows(h0, 7);
    ShortMixLine(h, 1, 37, 2, 3);
    assert h[..] == ShortMixRows(h0, 8);
    ShortMixLine(h, 2, 62, 3, 0);
    assert h[..] == ShortMixRows(h0, 9);
    ShortMixLine(h, 3, 34, 0, 1);
    assert h[..] == ShortMixRows(h0, 10);
    ShortMixLine(h, 0, 5, 1, 2);
    assert h[..] == ShortMixRows(h0, 11);
    ShortMixLine(h, 1, 36, 2, 3);
    assert h[..] == ShortMixRows(h0, 12);
  }

  /** One line of ShortEnd: h[c] ^= h[b]; h[b] = Rot64(h[b], k); h[c] += h[b]. */
  method ShortEndLine(h: array<Word>, c: nat, b: nat, k: Shift)
    requires h.Length == 4 && b < 4 && c < 4 && b != c
    modifies h
    ensures h[..] == ShortEndStep(old(h[..]), b, c, k)
  {
    h[c] := Xor(h[c], h[b]);
    h[b] := Rot64(h[b], k);
    h[c] := Plus(h[c], h[b]);
  }

  method ShortEndInPlace(h: array<Word>)
    requires h.Length == 4
    modifies h
    ensures h[..] == ShortEnd(old(h[..]))
  {
    hide ShortEndStep;
    ghost var h0: Words4 := h[..];
    ShortEndLine(h, 3, 2, 15);
    assert h[..] == ShortEndRows(h0, 1);
    ShortEndLine(h, 0, 3, 52);
    assert h[..] == ShortEndRows(h0, 2);
    ShortEndLine(h, 1, 0, 26);
    assert h[..] == ShortEndRows(h0, 3);
    ShortEndLine(h, 2, 1, 51);
    assert h[..] == ShortEndRows(h0, 4);
    ShortEndLine(h, 3, 2, 28);
    assert h[..] == ShortEndRows(h0, 5);
    ShortEndLine(h, 0, 3, 9);
    assert h[..] == ShortEndRows(h0, 6);
    ShortEndLine(h, 1, 0, 47);
    assert h[..] == ShortEndRows(h0, 7);
    ShortEndLine(h, 2, 1, 54);
    assert h[..] == ShortEndRows(h0, 8);
    ShortEndLine(h, 3, 2, 32);
    assert h[..] == ShortEndRows(h0, 9);
    ShortEndLine(h, 0, 3, 25);
    assert h[..] == ShortEndRows(h0, 10);
    ShortEndLine(h, 1, 0, 63);
    assert h[..] == ShortEndRows(h0, 11);
  }
}
