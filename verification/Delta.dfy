/**
 The bitmap delta codec of kit/Delta.hpp: `Encode` says which bytes makeDelta writes, command by
 command; `DecodeFrom` is the decoder of test/DeltaTests.cpp.  The lemmas connect the two.  The
 encoder as the source writes it, which patches bytes in place, is in `DeltaGenerators`.
*/
module Delta {

  import opened Arithmetic
  import opened Wrappers

  /** A pixel is an uint32_t that is copied with memcpy: four bytes. */
  datatype Pixel = Pixel(b0: byte, b1: byte, b2: byte, b3: byte)

  type Row = seq<Pixel>

  datatype DeltaData = DeltaData(wid: nat, width: nat, height: nat, rows: seq<Row>) {
    ghost predicate Valid() {
      IsBitmap(rows, width, height)
    }
  }

  ghost predicate IsBitmap(rows: seq<Row>, width: nat, height: nat) {
    |rows| == height && forall y :: 0 <= y < height ==> |rows[y]| == width
  }

  /** Two bitmaps of one size, within the limits makeDelta asserts. */
  predicate Encodable(prev: seq<Row>, cur: seq<Row>) {
    |prev| == |cur| <= 256 && forall y :: 0 <= y < |prev| ==> |prev[y]| == |cur[y]| <= 256
  }

  // ----- the stream as a list of commands ---------------------------------------------------

  datatype Op =
    | Copy(count: byte, src: byte, dest: byte)
    | Run(y: byte, x: byte, pixels: seq<Pixel>)

  /** The commands of a stream, the latest one outermost. */
  datatype Commands = Empty | Then(front: Commands, last: Op)

  /** The value of a `char` holding byte `b` where char is signed. */
  function SignedChar(b: byte): int {
    if b < 128 then b else b - 256
  }

  /** push_back of an integer keeps its low eight bits. */
  function ToByte(n: int): byte {
    n % 256
  }

  const D_MARK: byte := 68  // 'D'
  const C_MARK: byte := 99  // 'c'
  const R_MARK: byte := 100 // 'd'

  function PixelBytes(pixels: seq<Pixel>): (s: seq<byte>)
    ensures |s| == 4 * |pixels|
  {
    if pixels == [] then []
    else [pixels[0].b0, pixels[0].b1, pixels[0].b2, pixels[0].b3] + PixelBytes(pixels[1..])
  }

  function OpBytes(op: Op): (s: seq<byte>)
    ensures |s| == if op.Copy? then 4 else 4 + 4 * |op.pixels|
  {
    match op
    case Copy(count, src, dest) => [C_MARK, count, src, dest]
    case Run(y, x, pixels) => [R_MARK, y, x, ToByte(|pixels|)] + PixelBytes(pixels)
  }

  function Serialize(ops: Commands): seq<byte> {
    match ops
    case Empty => []
    case Then(front, op) => Serialize(front) + OpBytes(op)
  }

  // ----- which commands makeDelta chooses ---------------------------------------------------

  /** The first column from `x` on where the rows differ, or the width. */
  function SkipSame(p: Row, c: Row, x: nat): (r: nat)
    requires |p| == |c| && x <= |p|
    ensures x <= r <= |p|
    ensures r < |p| ==> p[r] != c[r]
    ensures forall i :: x <= i < r ==> p[i] == c[i]
    decreases |p| - x
  {
    if x < |p| && p[x] == c[x] then SkipSame(p, c, x + 1) else x
  }

  /** How far the source's second pixel loop extends a run that starts at `x`. */
  function RunLength(p: Row, c: Row, x: nat, d: nat): (r: nat)
    requires |p| == |c| && x + d <= |p| && d <= 254
    ensures d <= r <= 254 && x + r <= |p|
    ensures d < 2 && x + d < |p| ==> r > d
    ensures r < 2 ==> x + r == |p|
    decreases |p| - x - d
  {
    if d + x < |p| && (p[x + d] == c[x + d] || d < 2) && d < 254
    then RunLength(p, c, x, d + 1)
    else d
  }

  /** A run takes at least two pixels if the row has them, goes on over equal pixels, and ends at the end of
      the row, after 254 pixels, or before the next pixel that has changed. */
  lemma {:induction false} RunGoesOn(p: Row, c: Row, x: nat, d: nat)
    requires |p| == |c| && x + d <= |p| && d <= 254
    ensures var r := RunLength(p, c, x, d);
            && d <= r <= 254 && x + r <= |p|
            && (forall i :: x + d <= i < x + r && x + 2 <= i ==> p[i] == c[i])
            && (x + r == |p| || r == 254 || (2 <= r && p[x + r] != c[x + r]))
    decreases |p| - x - d
  {
    if d + x < |p| && (p[x + d] == c[x + d] || d < 2) && d < 254 {
      RunGoesOn(p, c, x, d + 1);
    }
  }

  /** Appends the pixel runs of row `y` from column `x` on. */
  function AddRuns(ops: Commands, p: Row, c: Row, y: byte, x: nat): Commands
    requires |p| == |c| <= 256 && x <= |p|
    decreases |p| - x
  {
    var x1 := SkipSame(p, c, x);
    if x1 == |p| then ops
    else
      var d := RunLength(p, c, x1, 0);
      AddRuns(Then(ops, Run(y, x1, c[x1..x1 + d])), p, c, y, x1 + d)
  }

  lemma {:induction false} AddRunsStep(ops: Commands, p: Row, c: Row, y: byte, x: nat)
    requires |p| == |c| <= 256 && x <= |p|
    ensures var x1 := SkipSame(p, c, x);
            if x1 == |p| then AddRuns(ops, p, c, y, x) == ops
            else
              var d := RunLength(p, c, x1, 0);
              && d > 0
              && AddRuns(ops, p, c, y, x) == AddRuns(Then(ops, Run(y, x1, c[x1..x1 + d])), p, c, y, x1 + d)
  {
  }

  /** The first previous row equal to `row`, searching cyclically from `start + yn`. */
  function Hunt(prev: seq<Row>, row: Row, start: nat, yn: nat): (r: Option<nat>)
    requires yn <= |prev|
    ensures r.Some? ==> r.value < |prev| && prev[r.value] == row
    decreases |prev| - yn
  {
    if yn == |prev| then None
    else
      var m := (start + yn) % |prev|;
      if prev[m] == row then Some(m) else Hunt(prev, row, start, yn + 1)
  }

  datatype Scan = Scan(ops: Commands, offset: int)

  /** Whether copying row `m` to row `y` continues the copy that ends the stream (as the source
      compares it, on signed chars). */
  predicate Extends(ops: Commands, m: byte, y: byte) {
    && ops.Then?
    && ops.last.Copy?
    && SignedChar(ops.last.src) + SignedChar(ops.last.count) == SignedChar(m)
    && SignedChar(ops.last.dest) + SignedChar(ops.last.count) == SignedChar(y)
  }

  function AddCopy(s: Scan, m: byte, y: byte): Scan {
    if Extends(s.ops, m, y) then
      var op := s.ops.last;
      Scan(Then(s.ops.front, Copy(ToByte(op.count + 1), op.src, op.dest)), s.offset)
    else
      Scan(Then(s.ops, Copy(1, m, y)), m - y)
  }

  function RowStep(prev: seq<Row>, cur: seq<Row>, s: Scan, y: nat): (r: Scan)
    requires Encodable(prev, cur) && y < |prev|
    requires y + s.offset >= 0
    ensures y + 1 + r.offset >= 0
  {
    if prev[y] == cur[y] then s
    else
      match Hunt(prev, cur[y], y + s.offset, 0)
      case Some(m) => AddCopy(s, m, y)
      case None => s.(ops := AddRuns(s.ops, prev[y], cur[y], y, 0))
  }

  /** RowStep for proofs that need nothing else. */
  lemma {:induction false} RowStepMeans(prev: seq<Row>, cur: seq<Row>, s: Scan, y: nat)
    requires Encodable(prev, cur) && y < |prev| && y + s.offset >= 0
    ensures |prev[y]| == |cur[y]| <= 256 && y < 256 && |prev| == |cur| <= 256
    ensures RowStep(prev, cur, s, y) ==
            if prev[y] == cur[y] then s
            else
              match Hunt(prev, cur[y], y + s.offset, 0)
              case Some(m) => AddCopy(s, m, y)
              case None => s.(ops := AddRuns(s.ops, prev[y], cur[y], y, 0))
  {
    hide Hunt, AddCopy, AddRuns;
  }

  /** The commands for the first `y` rows, and the offset of the latest copy command. */
  function Plan(prev: seq<Row>, cur: seq<Row>, y: nat): (r: Scan)
    requires Encodable(prev, cur) && y <= |prev|
    ensures y + r.offset >= 0
  {
    if y == 0 then Scan(Empty, 0) else RowStep(prev, cur, Plan(prev, cur, y - 1), y - 1)
  }

  // ----- scrolling --------------------------------------------------------------------------

  /** Row `y` has changed, and is what was `offset` rows away. */
  ghost predicate Scrolled(prev: seq<Row>, cur: seq<Row>, y: nat, offset: int)
    requires |prev| == |cur| && y < |prev|
  {
    prev[y] != cur[y] && 0 <= y + offset < |prev| && cur[y] == prev[y + offset]
  }

  /** As long as rows go on to come from the same distance, the latest copy takes them in (up to 128 rows,
      the numbers that the source's signed comparison takes as they are). */
  lemma {:induction false} ScrolledRowsJoin(prev: seq<Row>, cur: seq<Row>, front: Commands, from: nat, to: nat,
                                            count: nat, y: nat, offset: int)
    requires Encodable(prev, cur) && |prev| <= 128 && to + count <= y <= |prev| && offset == from - to
    requires from + count <= |prev|
    requires Plan(prev, cur, to + count) == Scan(Then(front, Copy(count, from, to)), offset)
    requires forall i :: to + count <= i < y ==> Scrolled(prev, cur, i, offset)
    ensures y + offset <= |prev| && Plan(prev, cur, y) == Scan(Then(front, Copy(y - to, from, to)), offset)
    decreases y
  {
    if to + count < y {
      hide Plan, RowStep, Hunt, Encodable, AddCopy;
      ScrolledRowsJoin(prev, cur, front, from, to, count, y - 1, offset);
      assert Scrolled(prev, cur, y - 1, offset);
      PlanStep(prev, cur, y - 1);
      RowStepMeans(prev, cur, Plan(prev, cur, y - 1), y - 1);
      HuntHere(prev, cur[y - 1], y - 1 + offset);
      CopyGrows(front, from, to, y - 1, offset);
    }
  }

  lemma {:induction false} CopyGrows(front: Commands, from: byte, to: byte, y: nat, offset: int)
    requires to <= y < 128 && offset == from - to && 0 <= y + offset < 128
    ensures AddCopy(Scan(Then(front, Copy(y - to, from, to)), offset), y + offset, y) ==
            Scan(Then(front, Copy(y + 1 - to, from, to)), offset)
  {
  }

  lemma {:induction false} HuntHere(prev: seq<Row>, row: Row, m: nat)
    requires m < |prev| && prev[m] == row
    ensures Hunt(prev, row, m, 0) == Some(m)
  {
  }

  /** Scrolling by `k` rows is one copy command for all rows that stay in view, if no two rows are alike. */
  lemma {:induction false} ScrollIsOneCopy(prev: seq<Row>, cur: seq<Row>, k: nat)
    requires Encodable(prev, cur) && 0 < k < |prev| <= 128
    requires forall i, j :: 0 <= i < j < |prev| ==> prev[i] != prev[j]
    requires forall i :: 0 <= i < |prev| - k ==> cur[i] == prev[i + k]
    ensures Plan(prev, cur, |prev| - k) == Scan(Then(Empty, Copy(|prev| - k, k, 0)), k)
  {
    hide Hunt, Encodable;
    RowStepMeans(prev, cur, Scan(Empty, 0), 0);
    HuntUnique(prev, cur[0], 0, k);
    assert Plan(prev, cur, 0) == Scan(Empty, 0);
    assert Plan(prev, cur, 1) == Scan(Then(Empty, Copy(1, k, 0)), k);
    ScrolledRowsJoin(prev, cur, Empty, k, 0, 1, |prev| - k, k);
  }

  lemma {:induction false} HuntUnique(prev: seq<Row>, row: Row, start: nat, m: nat)
    requires m < |prev| && prev[m] == row
    requires forall i :: 0 <= i < |prev| && prev[i] == row ==> i == m
    ensures Hunt(prev, row, start, 0) == Some(m)
  {
    HuntIsComplete(prev, row, start);
  }

  function Encode(prev: seq<Row>, cur: seq<Row>): seq<byte>
    requires Encodable(prev, cur)
  {
    [D_MARK] + Serialize(Plan(prev, cur, |prev|).ops)
  }

  // ----- the decoder ------------------------------------------------------------------------

  /** Four bytes a pixel. */
  function PixelsOf(s: seq<byte>): (r: seq<Pixel>)
    requires |s| % 4 == 0
    ensures 4 * |r| == |s|
  {
    if s == [] then [] else [Pixel(s[0], s[1], s[2], s[3])] + PixelsOf(s[4..])
  }

  /** The source row of the `k`-th copied row.  DeltaTests::applyDelta counts in ints; a decoder
      that keeps row numbers in a byte wraps. */
  function SourceRow(wraps: bool, src: nat, k: nat): nat {
    if wraps then (src + k) % 256 else src + k
  }

  /** Copies `count` rows of the previous bitmap; None when a row lies outside the bitmap. */
  function CopyRows(wraps: bool, prev: seq<Row>, out: seq<Row>, count: nat, src: nat, dest: nat): (r: Option<seq<Row>>)
    ensures r.Some? ==> |r.value| == |out|
  {
    if count == 0 then Some(out)
    else
      match CopyRows(wraps, prev, out, count - 1, src, dest)
      case None => None
      case Some(o) =>
        var from := SourceRow(wraps, src, count - 1);
        var to := dest + count - 1;
        if from < |prev| && to < |o| then Some(o[to := prev[from]]) else None
  }

  function WriteRun(out: seq<Row>, y: nat, x: nat, pixels: seq<Pixel>): (r: Option<seq<Row>>)
    ensures r.Some? ==> |r.value| == |out|
  {
    if y < |out| && x + |pixels| <= |out[y]|
    then Some(out[y := out[y][..x] + pixels + out[y][x + |pixels|..]])
    else None
  }

  /** Reads commands until the stream is used up; None on a malformed stream. */
  function DecodeFrom(wraps: bool, prev: seq<Row>, out: seq<Row>, s: seq<byte>): Option<seq<Row>>
    decreases |s|
  {
    if s == [] then Some(out)
    else if |s| < 4 then None
    else if s[0] == C_MARK then
      match CopyRows(wraps, prev, out, s[1], s[2], s[3])
      case None => None
      case Some(o) => DecodeFrom(wraps, prev, o, s[4..])
    else if s[0] == R_MARK then
      var end: nat := 4 + 4 * (s[3] as int);
      if |s| < end then None
      else
        match WriteRun(out, s[1], s[2], PixelsOf(s[4..end]))
        case None => None
        case Some(o) => DecodeFrom(wraps, prev, o, s[end..])
    else None
  }

  function Decode(wraps: bool, prev: seq<Row>, delta: seq<byte>): Option<seq<Row>> {
    if delta == [] || delta[0] != D_MARK then None
    else DecodeFrom(wraps, prev, prev, delta[1..])
  }

  // ----- commands and bytes -----------------------------------------------------------------

  /** What a list of commands does to a bitmap. */
  function ApplyOp(wraps: bool, prev: seq<Row>, out: seq<Row>, op: Op): (r: Option<seq<Row>>)
    ensures r.Some? ==> |r.value| == |out|
  {
    match op
    case Copy(count, src, dest) => CopyRows(wraps, prev, out, count, src, dest)
    case Run(y, x, pixels) => WriteRun(out, y, x, pixels)
  }

  function ApplyOps(wraps: bool, prev: seq<Row>, ops: Commands): (r: Option<seq<Row>>)
    ensures r.Some? ==> |r.value| == |prev|
  {
    match ops
    case Empty => Some(prev)
    case Then(front, op) =>
      match ApplyOps(wraps, prev, front)
      case None => None
      case Some(o) => ApplyOp(wraps, prev, o, op)
  }

  /** Every field of the command fits the byte it is stored in. */
  ghost predicate FitsBytes(op: Op) {
    match op
    case Copy(count, src, dest) => count > 0
    case Run(y, x, pixels) => 0 < |pixels| < 256
  }

  lemma {:induction false} PixelRoundTrip(pixels: seq<Pixel>)
    ensures PixelsOf(PixelBytes(pixels)) == pixels
  {
    if pixels != [] {
      PixelRoundTrip(pixels[1..]);
      var s := PixelBytes(pixels);
      assert s[4..] == PixelBytes(pixels[1..]);
      assert pixels == [pixels[0]] + pixels[1..];
    }
  }

  /** Decoding the bytes of one command does what the command says and goes on behind it. */
  lemma {:induction false} DecodeOne(wraps: bool, prev: seq<Row>, out: seq<Row>, op: Op, rest: seq<byte>)
    requires FitsBytes(op)
    ensures DecodeFrom(wraps, prev, out, OpBytes(op) + rest) ==
            match ApplyOp(wraps, prev, out, op)
            case None => None
            case Some(o) => DecodeFrom(wraps, prev, o, rest)
  {
    match op
    case Copy(count, src, dest) =>
      assert (OpBytes(op) + rest)[4..] == rest;
    case Run(y, x, pixels) =>
      DecodeRun(wraps, prev, out, y, x, pixels, rest);
  }

  lemma {:induction false} DecodeRun(wraps: bool, prev: seq<Row>, out: seq<Row>, y: byte, x: byte, pixels: seq<Pixel>,
                                     rest: seq<byte>)
    requires FitsBytes(Run(y, x, pixels))
    ensures DecodeFrom(wraps, prev, out, OpBytes(Run(y, x, pixels)) + rest) ==
            match WriteRun(out, y, x, pixels)
            case None => None
            case Some(o) => DecodeFrom(wraps, prev, o, rest)
  {
    hide *;
    RunBytes(y, x, pixels, rest);
    RunStep(wraps, prev, out, OpBytes(Run(y, x, pixels)) + rest, PixelBytes(pixels), rest);
    PixelRoundTrip(pixels);
  }

  lemma {:induction false} RunBytes(y: byte, x: byte, pixels: seq<Pixel>, rest: seq<byte>)
    requires FitsBytes(Run(y, x, pixels))
    ensures var s := OpBytes(Run(y, x, pixels)) + rest;
            && |s| >= 4 && s[0] == R_MARK && s[1] == y && s[2] == x && s[3] == |pixels|
            && s[4..] == PixelBytes(pixels) + rest
  {
    hide PixelBytes;
    var head := [R_MARK, y, x, ToByte(|pixels|)];
    assert OpBytes(Run(y, x, pixels)) + rest == head + (PixelBytes(pixels) + rest);
  }

  lemma {:induction false} RunStep(wraps: bool, prev: seq<Row>, out: seq<Row>, s: seq<byte>, data: seq<byte>,
                                   rest: seq<byte>)
    requires |s| >= 4 && s[0] == R_MARK && |data| == 4 * (s[3] as int)
    requires s[4..] == data + rest
    ensures DecodeFrom(wraps, prev, out, s) ==
            match WriteRun(out, s[1], s[2], PixelsOf(data))
            case None => None
            case Some(o) => DecodeFrom(wraps, prev, o, rest)
  {
    var end := 4 + |data|;
    assert s[4..end] == data && s[end..] == rest by {
      assert s[4..end] == s[4..][..|data|] && s[end..] == s[4..][|data|..];
    }
  }

  ghost predicate AllFit(ops: Commands) {
    match ops
    case Empty => true
    case Then(front, op) => AllFit(front) && FitsBytes(op)
  }

  /** The decoder runs the commands that were serialized. */
  lemma {:induction false} DecodeSerialized(wraps: bool, prev: seq<Row>, ops: Commands, rest: seq<byte>)
    requires AllFit(ops)
    ensures DecodeFrom(wraps, prev, prev, Serialize(ops) + rest) ==
            match ApplyOps(wraps, prev, ops)
            case None => None
            case Some(o) => DecodeFrom(wraps, prev, o, rest)
  {
    match ops
    case Empty =>
      assert Serialize(ops) + rest == rest;
    case Then(front, op) =>
      assert Serialize(ops) + rest == Serialize(front) + (OpBytes(op) + rest);
      DecodeSerialized(wraps, prev, front, OpBytes(op) + rest);
      var o := ApplyOps(wraps, prev, front);
      if o.Some? {
        DecodeOne(wraps, prev, o.value, op, rest);
      }
  }

  // ----- the commands rebuild the current bitmap --------------------------------------------

  /** Row `y` holds the current pixels left of column `x` and the previous ones from there on. */
  ghost predicate HalfDone(row: Row, p: Row, c: Row, x: nat) {
    |row| == |p| == |c| && forall i :: 0 <= i < |row| ==> row[i] == if i < x then c[i] else p[i]
  }

  lemma {:induction false} NothingDone(p: Row, c: Row)
    requires |p| == |c|
    ensures HalfDone(p, p, c, 0)
  {
  }

  /** Writing the run of pixels [x, x + d) finishes the row up to x + d. */
  lemma {:induction false} RunFinishesPixels(out: seq<Row>, p: Row, c: Row, y: byte, x: byte, d: nat)
    requires y < |out| && HalfDone(out[y], p, c, x) && x + d <= |c|
    ensures var o := WriteRun(out, y, x, c[x..x + d]);
            o.Some? && HalfDone(o.value[y], p, c, x + d) && o.value == out[y := o.value[y]]
  {
  }

  /** The pixel runs of a row turn the previous row into the current one. */
  lemma {:induction false} RunsRebuildRow(wraps: bool, prev: seq<Row>, ops: Commands, out: seq<Row>, p: Row, c: Row,
                                          y: byte, x: nat)
    requires |p| == |c| <= 256 && x <= |p| && y < |out|
    requires ApplyOps(wraps, prev, ops) == Some(out)
    requires HalfDone(out[y], p, c, x)
    ensures ApplyOps(wraps, prev, AddRuns(ops, p, c, y, x)) == Some(out[y := c])
    decreases |p| - x
  {
    hide SkipSame, RunLength, WriteRun;
    var x1 := SkipSame(p, c, x);
    if x1 == |p| {
      assert out[y] == c;
      assert out == out[y := c];
    } else {
      var d := RunLength(p, c, x1, 0);
      var run := c[x1..x1 + d];
      RunFinishesPixels(out, p, c, y, x1, d);
      var o := WriteRun(out, y, x1, run).value;
      RunsRebuildRow(wraps, prev, Then(ops, Run(y, x1, run)), o, p, c, y, x1 + d);
      assert o[y := c] == out[y := c];
    }
  }

  /** What the decoder's bitmap looks like when `y` rows are done. */
  ghost predicate Shows(out: seq<Row>, prev: seq<Row>, cur: seq<Row>, y: nat)
    requires |prev| == |cur|
  {
    |out| == |prev| && forall i :: 0 <= i < |out| ==> out[i] == if i < y then cur[i] else prev[i]
  }

  /** What holds of each command among those for the first `y` rows of a bitmap of height `h`. */
  ghost predicate Good(op: Op, h: nat, y: nat) {
    match op
    case Copy(count, src, dest) =>
      && 1 <= count <= 128 && src < h && src != dest && dest + count <= y
      && (count == 128 ==> SignedChar(src) <= 0 && SignedChar(dest) <= 0)
    case Run(row, x, pixels) => row < y && 1 <= |pixels| <= 254
  }

  ghost predicate AllGood(ops: Commands, h: nat, y: nat) {
    match ops
    case Empty => true
    case Then(front, op) => AllGood(front, h, y) && Good(op, h, y)
  }

  lemma {:induction false} GoodStaysGood(ops: Commands, h: nat, y: nat)
    requires AllGood(ops, h, y)
    ensures AllGood(ops, h, y + 1) && AllFit(ops)
  {
    if ops.Then? {
      GoodStaysGood(ops.front, h, y);
    }
  }

  lemma {:induction false} RunsAreGood(ops: Commands, p: Row, c: Row, y: byte, x: nat, h: nat)
    requires |p| == |c| <= 256 && x <= |p|
    requires AllGood(ops, h, y + 1)
    ensures AllGood(AddRuns(ops, p, c, y, x), h, y + 1)
    decreases |p| - x
  {
    var x1 := SkipSame(p, c, x);
    if x1 < |p| {
      var d := RunLength(p, c, x1, 0);
      RunsAreGood(Then(ops, Run(y, x1, c[x1..x1 + d])), p, c, y, x1 + d, h);
    }
  }

  /** When the signed comparison lets a copy run grow, the run ends just above row `y`, its next
      source row is `m` modulo 256, and its count stays below 129. */
  lemma {:induction false} ExtendsMeans(ops: Commands, h: nat, m: byte, y: byte)
    requires AllGood(ops, h, y) && m < h <= 256 && y < h
    requires Extends(ops, m, y)
    ensures ops.last.dest + ops.last.count == y
    ensures (ops.last.src + ops.last.count) % 256 == m
    ensures ops.last.count < 128
    ensures Good(Copy(ops.last.count + 1, ops.last.src, ops.last.dest), h, y + 1)
  {
    assert Good(ops.last, h, y);
    assert ops.last.count != 128;
  }

  lemma {:induction false} GrowCopy(prev: seq<Row>, o: seq<Row>, op: Op, m: byte, y: byte)
    requires op.Copy? && op.count < 255 && op.dest + op.count == y && (op.src + op.count) % 256 == m
    requires m < |prev| && y < |o|
    requires ApplyOp(true, prev, o, op).Some?
    ensures ApplyOp(true, prev, o, Copy(op.count + 1, op.src, op.dest)) ==
            Some(ApplyOp(true, prev, o, op).value[y := prev[m]])
  {
  }

  lemma {:induction false} FirstCopy(wraps: bool, prev: seq<Row>, out: seq<Row>, m: byte, y: byte)
    requires m < |prev| <= 256 && y < |out|
    ensures ApplyOp(wraps, prev, out, Copy(1, m, y)) == Some(out[y := prev[m]])
  {
    assert CopyRows(wraps, prev, out, 0, m, y) == Some(out);
  }

  /** A copy command, new or grown in place, writes row `m` of the previous bitmap to row `y`. */
  lemma {:induction false} AddCopyCopiesRow(prev: seq<Row>, out: seq<Row>, s: Scan, m: byte, y: byte)
    requires |prev| <= 256 && m < |prev| && y < |prev| && m != y
    requires AllGood(s.ops, |prev|, y)
    requires ApplyOps(true, prev, s.ops) == Some(out)
    ensures AllGood(AddCopy(s, m, y).ops, |prev|, y + 1)
    ensures ApplyOps(true, prev, AddCopy(s, m, y).ops) == Some(out[y := prev[m]])
  {
    hide ApplyOp, SignedChar;
    GoodStaysGood(s.ops, |prev|, y);
    if Extends(s.ops, m, y) {
      ExtendsMeans(s.ops, |prev|, m, y);
      GrowCopy(prev, ApplyOps(true, prev, s.ops.front).value, s.ops.last, m, y);
    } else {
      FirstCopy(true, prev, out, m, y);
    }
  }

  lemma {:induction false} ShowsAt(out: seq<Row>, prev: seq<Row>, cur: seq<Row>, y: nat)
    requires |prev| == |cur| && y < |prev| && Shows(out, prev, cur, y)
    ensures |out| == |prev| && out[y] == prev[y]
  {
  }

  /** One step of the plan brings the decoder's bitmap from `y` finished rows to `y + 1`. */
  lemma {:induction false} RowStepRebuilds(prev: seq<Row>, cur: seq<Row>, s: Scan, o: seq<Row>, y: nat)
    requires Encodable(prev, cur) && y < |prev| && y + s.offset >= 0
    requires AllGood(s.ops, |prev|, y)
    requires ApplyOps(true, prev, s.ops) == Some(o) && Shows(o, prev, cur, y)
    ensures AllGood(RowStep(prev, cur, s, y).ops, |prev|, y + 1)
    ensures ApplyOps(true, prev, RowStep(prev, cur, s, y).ops) == Some(o[y := cur[y]])
  {
    hide *;
    RowStepMeans(prev, cur, s, y);
    ShowsAt(o, prev, cur, y);
    GoodStaysGood(s.ops, |prev|, y);
    if prev[y] == cur[y] {
      assert o == o[y := cur[y]];
    } else {
      match Hunt(prev, cur[y], y + s.offset, 0)
      case Some(m) =>
        AddCopyCopiesRow(prev, o, s, m, y);
      case None =>
        RunsAreGood(s.ops, prev[y], cur[y], y, 0, |prev|);
        NothingDone(prev[y], cur[y]);
        RunsRebuildRow(true, prev, s.ops, o, prev[y], cur[y], y, 0);
    }
  }

  lemma {:induction false} PlanRebuilds(prev: seq<Row>, cur: seq<Row>, y: nat)
    requires Encodable(prev, cur) && y <= |prev|
    ensures AllGood(Plan(prev, cur, y).ops, |prev|, y)
    ensures var o := ApplyOps(true, prev, Plan(prev, cur, y).ops);
            o.Some? && Shows(o.value, prev, cur, y)
  {
    hide *;
    if y == 0 {
      PlanStart(prev, cur);
    } else {
      SameHeight(prev, cur);
      PlanRebuilds(prev, cur, y - 1);
      PlanStep(prev, cur, y - 1);
      var s := Plan(prev, cur, y - 1);
      var o := ApplyOps(true, prev, s.ops).value;
      RowStepRebuilds(prev, cur, s, o, y - 1);
      ShowsMore(o, prev, cur, y - 1);
    }
  }

  lemma {:induction false} SameHeight(prev: seq<Row>, cur: seq<Row>)
    requires Encodable(prev, cur)
    ensures |prev| == |cur| <= 256
  {
  }

  lemma {:induction false} PlanStart(prev: seq<Row>, cur: seq<Row>)
    requires Encodable(prev, cur)
    ensures Plan(prev, cur, 0) == Scan(Empty, 0) && AllGood(Empty, |prev|, 0) && Serialize(Empty) == []
    ensures ApplyOps(true, prev, Empty) == Some(prev) && Shows(prev, prev, cur, 0)
  {
  }

  lemma {:induction false} PlanStep(prev: seq<Row>, cur: seq<Row>, y: nat)
    requires Encodable(prev, cur) && y < |prev|
    ensures Plan(prev, cur, y + 1) == RowStep(prev, cur, Plan(prev, cur, y), y)
  {
    hide RowStep;
  }

  lemma {:induction false} ShowsMore(out: seq<Row>, prev: seq<Row>, cur: seq<Row>, y: nat)
    requires |prev| == |cur| && y < |prev| && Shows(out, prev, cur, y)
    ensures |out| == |prev| && Shows(out[y := cur[y]], prev, cur, y + 1)
  {
  }

  /** Decoding the stream against the previous bitmap gives the current one, for every pair of
      bitmaps makeDelta accepts, if the decoder keeps source rows modulo 256. */
  lemma {:induction false} RoundTrip(prev: seq<Row>, cur: seq<Row>)
    requires Encodable(prev, cur)
    ensures Decode(true, prev, Encode(prev, cur)) == Some(cur)
  {
    var ops := Plan(prev, cur, |prev|).ops;
    PlanRebuilds(prev, cur, |prev|);
    GoodStaysGood(ops, |prev|, |prev|);
    DecodeSerialized(true, prev, ops, []);
    assert Encode(prev, cur)[1..] == Serialize(ops) + [];
    assert ApplyOps(true, prev, ops).value == cur;
  }

  // ----- the decoder that does not wrap -----------------------------------------------------

  /** The command reads source rows below the bottom edge of a bitmap of height `h`. */
  ghost predicate PastBottom(op: Op, h: nat) {
    op.Copy? && op.src + op.count > h
  }

  ghost predicate SomePastBottom(ops: Commands, h: nat) {
    match ops
    case Empty => false
    case Then(front, op) => SomePastBottom(front, h) || PastBottom(op, h)
  }

  /** At row `y` the encoder lets a copy run grow although the row it found is row 0: the low byte
      of the next source row wrapped from 256. */
  ghost predicate GrowsOverTop(prev: seq<Row>, cur: seq<Row>, y: nat)
    requires Encodable(prev, cur) && y < |prev|
  {
    && prev[y] != cur[y]
    && Hunt(prev, cur[y], y + Plan(prev, cur, y).offset, 0) == Some(0)
    && Extends(Plan(prev, cur, y).ops, 0, y)
  }

  lemma {:induction false} RunsKeepCopies(ops: Commands, p: Row, c: Row, y: byte, x: nat, h: nat)
    requires |p| == |c| <= 256 && x <= |p|
    ensures SomePastBottom(AddRuns(ops, p, c, y, x), h) <==> SomePastBottom(ops, h)
    decreases |p| - x
  {
    var x1 := SkipSame(p, c, x);
    if x1 < |p| {
      var d := RunLength(p, c, x1, 0);
      RunsKeepCopies(Then(ops, Run(y, x1, c[x1..x1 + d])), p, c, y, x1 + d, h);
    }
  }

  lemma {:induction false} AddCopyPastBottom(s: Scan, h: nat, m: byte, y: byte)
    requires AllGood(s.ops, h, y) && m < h <= 256 && y < h
    ensures SomePastBottom(AddCopy(s, m, y).ops, h) <==>
            SomePastBottom(s.ops, h) || (Extends(s.ops, m, y) && m == 0)
  {
    if Extends(s.ops, m, y) {
      ExtendsMeans(s.ops, h, m, y);
      var op := s.ops.last;
      if op.src + op.count < 256 {
        assert m == op.src + op.count;
      } else if op.src + op.count > 256 {
        assert PastBottom(op, h);
      }
    }
  }

  lemma {:induction false} RowStepPastBottom(prev: seq<Row>, cur: seq<Row>, y: nat)
    requires Encodable(prev, cur) && y < |prev|
    ensures SomePastBottom(Plan(prev, cur, y + 1).ops, |prev|) <==>
            SomePastBottom(Plan(prev, cur, y).ops, |prev|) || GrowsOverTop(prev, cur, y)
  {
    hide AllGood, SomePastBottom, Extends, AddCopy, AddRuns, Hunt, Plan, RowStep, Shows, ApplyOps;
    var s := Plan(prev, cur, y);
    PlanRebuilds(prev, cur, y);
    PlanStep(prev, cur, y);
    RowStepMeans(prev, cur, s, y);
    if prev[y] != cur[y] {
      match Hunt(prev, cur[y], y + s.offset, 0)
      case Some(m) => AddCopyPastBottom(s, |prev|, m, y);
      case None => RunsKeepCopies(s.ops, prev[y], cur[y], y, 0, |prev|);
    }
  }

  lemma {:induction false} PastBottomExactly(prev: seq<Row>, cur: seq<Row>, y: nat)
    requires Encodable(prev, cur) && y <= |prev|
    ensures SomePastBottom(Plan(prev, cur, y).ops, |prev|) <==>
            exists y' :: 0 <= y' < y && GrowsOverTop(prev, cur, y')
  {
    hide GrowsOverTop, RowStep;
    if y > 0 {
      PastBottomExactly(prev, cur, y - 1);
      RowStepPastBottom(prev, cur, y - 1);
    }
  }

  lemma {:induction false} CopyRowsStrict(prev: seq<Row>, out: seq<Row>, count: nat, src: nat, dest: nat)
    requires |prev| <= 256
    ensures CopyRows(false, prev, out, count, src, dest) ==
            if src + count > |prev| && count > 0 then None else CopyRows(true, prev, out, count, src, dest)
  {
    hide CopyRows;
    CopyRowsMeans(false, prev, out, count, src, dest);
    CopyRowsMeans(true, prev, out, count, src, dest);
    if count > 0 {
      CopyRowsStrict(prev, out, count - 1, src, dest);
    }
  }

  lemma {:induction false} CopyRowsMeans(wraps: bool, prev: seq<Row>, out: seq<Row>, count: nat, src: nat, dest: nat)
    ensures CopyRows(wraps, prev, out, count, src, dest) ==
            if count == 0 then Some(out)
            else
              match CopyRows(wraps, prev, out, count - 1, src, dest)
              case None => None
              case Some(o) =>
                var from := SourceRow(wraps, src, count - 1);
                var to := dest + count - 1;
                if from < |prev| && to < |o| then Some(o[to := prev[from]]) else None
  {
    hide SourceRow;
  }

  lemma {:induction false} ApplyStrict(prev: seq<Row>, ops: Commands, y: nat)
    requires |prev| <= 256 && AllGood(ops, |prev|, y)
    requires ApplyOps(true, prev, ops).Some?
    ensures ApplyOps(false, prev, ops) ==
            if SomePastBottom(ops, |prev|) then None else ApplyOps(true, prev, ops)
  {
    if ops.Then? {
      ApplyStrict(prev, ops.front, y);
      if ops.last.Copy? {
        var o := ApplyOps(true, prev, ops.front).value;
        CopyRowsStrict(prev, o, ops.last.count, ops.last.src, ops.last.dest);
      }
    }
  }

  /** The decoder that counts source rows in ints gives the current bitmap back exactly when no
      copy run grows from the bottom row on to row 0; otherwise it reads outside the bitmap. */
  lemma {:induction false} StrictRoundTrip(prev: seq<Row>, cur: seq<Row>)
    requires Encodable(prev, cur)
    ensures (forall y :: 0 <= y < |prev| ==> !GrowsOverTop(prev, cur, y)) <==>
            Decode(false, prev, Encode(prev, cur)) == Some(cur)
    ensures (exists y :: 0 <= y < |prev| && GrowsOverTop(prev, cur, y)) <==>
            Decode(false, prev, Encode(prev, cur)) == None
  {
    var ops := Plan(prev, cur, |prev|).ops;
    PlanRebuilds(prev, cur, |prev|);
    assert ApplyOps(true, prev, ops).value == cur;
    GoodStaysGood(ops, |prev|, |prev|);
    PastBottomExactly(prev, cur, |prev|);
    ApplyStrict(prev, ops, |prev|);
    DecodeSerialized(false, prev, ops, []);
    assert Encode(prev, cur)[1..] == Serialize(ops) + [];
  }

  /** Below 256 rows no decoder needs to wrap. */
  lemma {:induction false} ShortBitmapsNeverWrap(prev: seq<Row>, cur: seq<Row>, y: nat)
    requires Encodable(prev, cur) && y < |prev| <= 255
    ensures !GrowsOverTop(prev, cur, y)
  {
    forall y' | 0 <= y' < y
      ensures !GrowsOverTop(prev, cur, y')
    {
      ShortBitmapsNeverWrap(prev, cur, y');
    }
    PastBottomExactly(prev, cur, y);
    PlanRebuilds(prev, cur, y);
    if GrowsOverTop(prev, cur, y) {
      ExtendsMeans(Plan(prev, cur, y).ops, |prev|, 0, y);
    }
  }

  // ----- known rows and the size of the stream ----------------------------------------------

  lemma {:induction false} CyclicIndex(start: nat, n: nat, m: nat) returns (k: nat)
    requires m < n
    ensures k < n && (start + k) % n == m
  {
    var r := start % n;
    k := if m >= r then m - r else m + n - r;
    var q := if m >= r then start / n else start / n + 1;
    assert start + k == q * n + m;
    ModOf(q, n, m);
  }

  lemma {:induction false} HuntMisses(prev: seq<Row>, row: Row, start: nat, yn: nat, k: nat)
    requires yn <= k < |prev| && Hunt(prev, row, start, yn) == None
    ensures prev[(start + k) % |prev|] != row
    decreases |prev| - yn
  {
    if yn < k {
      HuntMisses(prev, row, start, yn + 1, k);
    }
  }

  /** The modular search visits every previous row, wherever it starts. */
  lemma {:induction false} HuntIsComplete(prev: seq<Row>, row: Row, start: nat)
    ensures Hunt(prev, row, start, 0).Some? <==> row in prev
  {
    if row in prev && Hunt(prev, row, start, 0) == None {
      var m :| 0 <= m < |prev| && prev[m] == row;
      var k := CyclicIndex(start, |prev|, m);
      HuntMisses(prev, row, start, 0, k);
    }
  }

  /** Pixels are sent only for rows that the previous bitmap does not have anywhere. */
  ghost predicate OnlyNewRowsSent(ops: Commands, prev: seq<Row>, cur: seq<Row>) {
    match ops
    case Empty => true
    case Then(front, op) =>
      OnlyNewRowsSent(front, prev, cur) && (op.Run? ==> op.y < |cur| && cur[op.y] !in prev)
  }

  lemma {:induction false} AddRunsSends(ops: Commands, prev: seq<Row>, cur: seq<Row>, p: Row, c: Row, y: byte, x: nat)
    requires |p| == |c| <= 256 && x <= |p|
    requires OnlyNewRowsSent(ops, prev, cur) && y < |cur| && cur[y] !in prev
    ensures OnlyNewRowsSent(AddRuns(ops, p, c, y, x), prev, cur)
    decreases |p| - x
  {
    var x1 := SkipSame(p, c, x);
    if x1 < |p| {
      var d := RunLength(p, c, x1, 0);
      AddRunsSends(Then(ops, Run(y, x1, c[x1..x1 + d])), prev, cur, p, c, y, x1 + d);
    }
  }

  lemma {:induction false} KnownRowsAreNeverSentAsPixels(prev: seq<Row>, cur: seq<Row>, y: nat)
    requires Encodable(prev, cur) && y <= |prev|
    ensures OnlyNewRowsSent(Plan(prev, cur, y).ops, prev, cur)
  {
    if y > 0 {
      KnownRowsAreNeverSentAsPixels(prev, cur, y - 1);
      var s, row := Plan(prev, cur, y - 1), y - 1;
      HuntIsComplete(prev, cur[row], row + s.offset);
      if prev[row] != cur[row] && cur[row] !in prev {
        AddRunsSends(s.ops, prev, cur, prev[row], cur[row], row, 0);
      }
    }
  }

  lemma {:induction false} RunsSize(ops: Commands, p: Row, c: Row, y: byte, x: nat)
    requires |p| == |c| <= 256 && x <= |p|
    ensures |Serialize(AddRuns(ops, p, c, y, x))| <=
            |Serialize(ops)| + if x == |p| then 0 else 6 * (|p| - x) + 2
    decreases |p| - x
  {
    hide SkipSame, RunLength, AddRuns, OpBytes;
    AddRunsStep(ops, p, c, y, x);
    var x1 := SkipSame(p, c, x);
    if x1 < |p| {
      var d := RunLength(p, c, x1, 0);
      RunsSize(Then(ops, Run(y, x1, c[x1..x1 + d])), p, c, y, x1 + d);
    }
  }

  /** A delta costs at most 6w + 2 bytes a row, and one byte for its mark. */
  lemma {:induction false} SizeBound(prev: seq<Row>, cur: seq<Row>, width: nat)
    requires Encodable(prev, cur) && IsBitmap(prev, width, |prev|)
    ensures |Encode(prev, cur)| <= 1 + |prev| * (6 * width + 2)
  {
    PlanSize(prev, cur, width, 6 * width + 2, |prev|);
  }

  lemma {:induction false} PlanSize(prev: seq<Row>, cur: seq<Row>, width: nat, perRow: nat, y: nat)
    requires Encodable(prev, cur) && IsBitmap(prev, width, |prev|) && y <= |prev|
    requires perRow == 6 * width + 2
    ensures |Serialize(Plan(prev, cur, y).ops)| <= y * perRow
  {
    hide *;
    if y == 0 {
      PlanStart(prev, cur);
    } else {
      PlanSize(prev, cur, width, perRow, y - 1);
      PlanStep(prev, cur, y - 1);
      RowStepSize(prev, cur, width, Plan(prev, cur, y - 1), y - 1);
      OneMore(perRow, y - 1);
    }
  }

  lemma {:induction false} RowStepSize(prev: seq<Row>, cur: seq<Row>, width: nat, s: Scan, y: nat)
    requires Encodable(prev, cur) && IsBitmap(prev, width, |prev|) && y < |prev| && y + s.offset >= 0
    ensures |Serialize(RowStep(prev, cur, s, y).ops)| <= |Serialize(s.ops)| + 6 * width + 2
  {
    hide *;
    RowStepMeans(prev, cur, s, y);
    RowWidth(prev, width, y);
    if prev[y] != cur[y] {
      assert width > 0;
      match Hunt(prev, cur[y], y + s.offset, 0)
      case Some(m) => AddCopySize(s, m, y);
      case None => RunsSize(s.ops, prev[y], cur[y], y, 0);
    }
  }

  lemma {:induction false} RowWidth(rows: seq<Row>, width: nat, y: nat)
    requires IsBitmap(rows, width, |rows|) && y < |rows|
    ensures |rows[y]| == width
  {
  }

  lemma {:induction false} AddCopySize(s: Scan, m: byte, y: byte)
    ensures |Serialize(AddCopy(s, m, y).ops)| <= |Serialize(s.ops)| + 4
  {
  }
}
