/**
 The delta generator of kit/Delta.hpp: the encoder loops, the conversion of a pixmap to rows, and
 the sliding window of recent bitmaps.  The methods are proved against the functions of module
 `Delta`.
*/
module DeltaGenerators {

  import opened Arithmetic
  import opened Pixmaps
  import opened Wrappers
  import opened Delta

  // ----- where the source's lastCopy points -------------------------------------------------

  /** The stream position of the count byte of the latest copy command, 0 if there is none.
      `base` is where the serialized commands start. */
  ghost function LastCopyAt(ops: Commands, base: nat): nat {
    match ops
    case Empty => 0
    case Then(front, op) => if op.Copy? then base + |Serialize(front)| + 1 else LastCopyAt(front, base)
  }

  ghost function LatestCopy(ops: Commands): (r: Option<Op>)
    ensures r.Some? ==> r.value.Copy?
  {
    match ops
    case Empty => None
    case Then(front, op) => if op.Copy? then Some(op) else LatestCopy(front)
  }

  /** The latest copy run ends above row `y`; if pixels follow it, at least one row separates it
      from row `y`. */
  ghost predicate CopiesEndAbove(ops: Commands, y: nat) {
    LatestCopy(ops).Some? ==>
      var c := LatestCopy(ops).value;
      c.dest + c.count <= y && (ops.last.Run? ==> c.dest + c.count < y)
  }

  lemma {:induction false} RunsKeepLatestCopy(ops: Commands, p: Row, c: Row, y: byte, x: nat, base: nat)
    requires |p| == |c| <= 256 && x <= |p|
    ensures LatestCopy(AddRuns(ops, p, c, y, x)) == LatestCopy(ops)
    ensures LastCopyAt(AddRuns(ops, p, c, y, x), base) == LastCopyAt(ops, base)
    decreases |p| - x
  {
    var x1 := SkipSame(p, c, x);
    if x1 < |p| {
      var d := RunLength(p, c, x1, 0);
      RunsKeepLatestCopy(Then(ops, Run(y, x1, c[x1..x1 + d])), p, c, y, x1 + d, base);
    }
  }

  lemma {:induction false} AddCopyEndsAbove(s: Scan, h: nat, m: byte, y: byte)
    requires AllGood(s.ops, h, y) && m < h <= 256 && y < h
    ensures CopiesEndAbove(AddCopy(s, m, y).ops, y + 1)
  {
    if Extends(s.ops, m, y) {
      ExtendsMeans(s.ops, h, m, y);
    }
  }

  lemma {:induction false} RowStepEndsAbove(prev: seq<Row>, cur: seq<Row>, s: Scan, y: nat)
    requires Encodable(prev, cur) && y < |prev| && y + s.offset >= 0
    requires AllGood(s.ops, |prev|, y) && CopiesEndAbove(s.ops, y)
    ensures CopiesEndAbove(RowStep(prev, cur, s, y).ops, y + 1)
  {
    hide AddRuns, AddCopy, AllGood;
    if prev[y] != cur[y] {
      match Hunt(prev, cur[y], y + s.offset, 0)
      case Some(m) => AddCopyEndsAbove(s, |prev|, m, y);
      case None => RunsKeepLatestCopy(s.ops, prev[y], cur[y], y, 0, 0);
    }
  }

  lemma {:induction false} PlanCopiesEndAbove(prev: seq<Row>, cur: seq<Row>, y: nat)
    requires Encodable(prev, cur) && y <= |prev|
    ensures CopiesEndAbove(Plan(prev, cur, y).ops, y)
  {
    hide RowStep, AllGood, ApplyOps, Shows;
    if y > 0 {
      PlanCopiesEndAbove(prev, cur, y - 1);
      PlanRebuilds(prev, cur, y - 1);
      RowStepEndsAbove(prev, cur, Plan(prev, cur, y - 1), y - 1);
    }
  }

  /** The bytes of the latest copy command are where `LastCopyAt` says. */
  lemma {:induction false} LastCopyBytes(ops: Commands, base: seq<byte>)
    requires base != []
    ensures LatestCopy(ops) == None <==> LastCopyAt(ops, |base|) == 0
    ensures LatestCopy(ops).Some? ==>
              var at := LastCopyAt(ops, |base|);
              && |base| < at && at + 2 < |base + Serialize(ops)|
              && (base + Serialize(ops))[at] == LatestCopy(ops).value.count
              && (base + Serialize(ops))[at + 1] == LatestCopy(ops).value.src
              && (base + Serialize(ops))[at + 2] == LatestCopy(ops).value.dest
  {
    hide Serialize, OpBytes;
    if ops.Then? {
      var front, op := base + Serialize(ops.front), ops.last;
      SerializeMeans(ops, base);
      if op.Copy? {
        CopyBytes(op);
      } else {
        LastCopyBytes(ops.front, base);
      }
    }
  }

  lemma {:induction false} SerializeMeans(ops: Commands, base: seq<byte>)
    requires ops.Then?
    ensures base + Serialize(ops) == (base + Serialize(ops.front)) + OpBytes(ops.last)
  {
    hide OpBytes;
  }

  lemma {:induction false} CopyBytes(op: Op)
    requires op.Copy?
    ensures OpBytes(op) == [C_MARK, op.count, op.src, op.dest]
  {
  }

  lemma {:induction false} LatestCopyIsGood(ops: Commands, h: nat, y: nat)
    requires AllGood(ops, h, y) && LatestCopy(ops).Some?
    ensures LatestCopy(ops).value.Copy? && Good(LatestCopy(ops).value, h, y)
  {
    if ops.last.Run? {
      LatestCopyIsGood(ops.front, h, y);
    }
  }

  /** The source's comparison of three bytes at `lastCopy` succeeds only when the copy command is
      the last of the stream: patching never reaches behind later pixels. */
  lemma {:induction false} PatchTest(ops: Commands, h: nat, m: byte, y: byte)
    requires AllGood(ops, h, y) && CopiesEndAbove(ops, y) && y < h <= 256
    ensures Extends(ops, m, y) <==>
            && LatestCopy(ops).Some?
            && var c := LatestCopy(ops).value;
            && SignedChar(c.src) + SignedChar(c.count) == SignedChar(m)
            && SignedChar(c.dest) + SignedChar(c.count) == SignedChar(y)
  {
    if LatestCopy(ops).Some? {
      LatestCopyIsGood(ops, h, y);
      if ops.last.Run? {
        var c := LatestCopy(ops).value;
        assert 0 < c.dest + c.count < y <= 255;
        assert SignedChar(c.dest) + SignedChar(c.count) != SignedChar(y);
      }
    }
  }

  /** Incrementing the count byte in place yields the serialization of the grown command. */
  lemma {:induction false} PatchedBytes(ops: Commands, base: seq<byte>)
    requires ops.Then? && ops.last.Copy?
    ensures var at := LastCopyAt(ops, |base|);
            var grown := Copy(ToByte(ops.last.count + 1), ops.last.src, ops.last.dest);
            && at < |base + Serialize(ops)|
            && (base + Serialize(ops))[at := ToByte(ops.last.count + 1)] ==
               base + Serialize(Then(ops.front, grown))
  {
    var front := base + Serialize(ops.front);
    var c := ops.last;
    assert base + Serialize(ops) == front + [C_MARK, c.count, c.src, c.dest];
  }

  lemma {:induction false} SerializeThen(base: seq<byte>, ops: Commands, op: Op)
    ensures base + Serialize(Then(ops, op)) == base + Serialize(ops) + OpBytes(op)
  {
    assert base + (Serialize(ops) + OpBytes(op)) == base + Serialize(ops) + OpBytes(op);
  }

  // ----- the encoder ------------------------------------------------------------------------

  /** The source's loop over equal pixels. */
  method CountSame(p: Row, c: Row, x: nat) returns (same: nat)
    requires |p| == |c| && x <= |p|
    ensures x + same == SkipSame(p, c, x)
  {
    same := 0;
    while same + x < |p| && p[x + same] == c[x + same]
      invariant x + same <= |p|
      invariant SkipSame(p, c, x) == SkipSame(p, c, x + same)
    {
      same := same + 1;
    }
  }

  /** The source's loop over the pixels of a run. */
  method CountDiff(p: Row, c: Row, x: nat) returns (diff: nat)
    requires |p| == |c| && x <= |p|
    ensures diff == RunLength(p, c, x, 0)
  {
    diff := 0;
    while diff + x < |p| && (p[x + diff] == c[x + diff] || diff < 2) && diff < 254
      invariant diff <= 254 && x + diff <= |p|
      invariant RunLength(p, c, x, 0) == RunLength(p, c, x, diff)
    {
      diff := diff + 1;
    }
  }

  /** What the source appends for a run is the run command. */
  lemma {:induction false} RunAppended(base: seq<byte>, ops: Commands, y: byte, x: byte, run: seq<Pixel>)
    requires |run| <= 254
    ensures base + Serialize(ops) + ([R_MARK, y, x, |run|] + PixelBytes(run)) ==
            base + Serialize(Then(ops, Run(y, x, run)))
  {
    hide PixelBytes;
    SerializeThen(base, ops, Run(y, x, run));
  }

  /** Appends the pixel runs of one row: the source's loop over x. */
  method PutRow(p: Row, c: Row, y: byte, output0: seq<byte>, ghost ops0: Commands, ghost base: seq<byte>)
    returns (output: seq<byte>)
    requires |p| == |c| <= 256
    requires output0 == base + Serialize(ops0)
    ensures output == base + Serialize(AddRuns(ops0, p, c, y, 0))
  {
    hide *;
    output := output0;
    ghost var ops := ops0;
    var x := 0;
    while x < |p|
      invariant 0 <= x <= |p|
      invariant output == base + Serialize(ops)
      invariant AddRuns(ops, p, c, y, x) == AddRuns(ops0, p, c, y, 0)
    {
      AddRunsStep(ops, p, c, y, x);
      var same := CountSame(p, c, x);
      x := x + same;
      var diff := CountDiff(p, c, x);
      if diff > 0 {
        var run := c[x..x + diff];
        RunAppended(base, ops, y, x, run);
        output := output + ([R_MARK, y, x, diff] + PixelBytes(run));
        ops := Then(ops, Run(y, x, run));
        x := x + diff;
      } else {
        AddRunsStep(ops, p, c, y, x);
      }
    }
    AddRunsStep(ops, p, c, y, x);
  }

  /** Copies row `row` of the previous bitmap to row `y`: grows the latest copy command in place
      when the bytes at `lastCopy` allow it, else appends a new one. */
  method PutCopy(row: byte, y: byte, output0: seq<byte>, lastMatchOffset0: nat, lastCopy0: nat,
                 ghost s: Scan, ghost base: seq<byte>, ghost h: nat)
    returns (output: seq<byte>, lastMatchOffset: nat, lastCopy: nat)
    requires AllGood(s.ops, h, y) && CopiesEndAbove(s.ops, y) && y < h <= 256 && base != []
    requires output0 == base + Serialize(s.ops)
    requires lastMatchOffset0 == s.offset % TWO_TO_THE_64 && lastCopy0 == LastCopyAt(s.ops, |base|)
    ensures output == base + Serialize(AddCopy(s, row, y).ops)
    ensures lastMatchOffset == AddCopy(s, row, y).offset % TWO_TO_THE_64
    ensures lastCopy == LastCopyAt(AddCopy(s, row, y).ops, |base|)
  {
    hide SignedChar, Good, CopiesEndAbove, AllGood;
    output, lastMatchOffset, lastCopy := output0, lastMatchOffset0, lastCopy0;
    LastCopyBytes(s.ops, base);
    PatchTest(s.ops, h, row, y);
    if lastCopy > 0 &&
       SignedChar(output[lastCopy + 1]) + SignedChar(output[lastCopy]) == SignedChar(row) &&
       SignedChar(output[lastCopy + 2]) + SignedChar(output[lastCopy]) == SignedChar(y)
    {
      PatchedBytes(s.ops, base);
      output := output[lastCopy := ToByte(output[lastCopy] as int + 1)];
    } else {
      lastMatchOffset := (row - y) % TWO_TO_THE_64;
      output := output + [C_MARK];
      lastCopy := |output|;
      output := output + [1, row, y];
      assert output == base + (Serialize(s.ops) + [C_MARK, 1, row, y]);
    }
  }

  /** The row the search looks at: a sum of size_t values, modulo the height. */
  function CandidateRow(y: nat, lastMatchOffset: nat, yn: nat, height: nat): (r: nat)
    requires height > 0
    ensures r < height
  {
    (y + lastMatchOffset + yn) % TWO_TO_THE_64 % height
  }

  /** The wrapped negative offset does no harm: the sum wraps back. */
  lemma {:induction false} UnsignedWrap(y: nat, offset: int, yn: nat, height: nat)
    requires 0 <= y + offset && -256 <= offset <= 256 && y <= 256 && yn < height <= 256
    ensures CandidateRow(y, offset % TWO_TO_THE_64, yn, height) == (y + offset + yn) % height
  {
    assert (y + offset % TWO_TO_THE_64 + yn) % TWO_TO_THE_64 == y + offset + yn;
  }

  lemma {:induction false} OffsetIsSmall(prev: seq<Row>, cur: seq<Row>, y: nat)
    requires Encodable(prev, cur) && y <= |prev|
    ensures -256 <= Plan(prev, cur, y).offset <= 256
  {
    if y > 0 {
      OffsetIsSmall(prev, cur, y - 1);
    }
  }

  /** The encoder's variables when the first `y` rows are done: `base` plus the serialized plan,
      the offset of the latest copy as a size_t, and the position of its count byte. */
  ghost predicate AtRow(prev: seq<Row>, cur: seq<Row>, y: nat, base: seq<byte>,
                        output: seq<byte>, lastMatchOffset: nat, lastCopy: nat)
    requires Encodable(prev, cur) && y <= |prev|
  {
    var s := Plan(prev, cur, y);
    && output == base + Serialize(s.ops)
    && lastMatchOffset == s.offset % TWO_TO_THE_64
    && lastCopy == LastCopyAt(s.ops, |base|)
  }

  /** The source's modular search for a previous row equal to row `y`, on size_t values. */
  method HuntRow(prev: seq<Row>, row: Row, y: nat, lastMatchOffset: nat, ghost offset: int) returns (found: Option<nat>)
    requires y < |prev| <= 256 && -256 <= offset <= 256 && y + offset >= 0
    requires lastMatchOffset == offset % TWO_TO_THE_64
    ensures found == Hunt(prev, row, y + offset, 0)
  {
    hide CandidateRow;
    var yn := 0;
    while yn < |prev|
      invariant 0 <= yn <= |prev|
      invariant Hunt(prev, row, y + offset, 0) == Hunt(prev, row, y + offset, yn)
    {
      UnsignedWrap(y, offset, yn, |prev|);
      var candidate := CandidateRow(y, lastMatchOffset, yn, |prev|);
      if prev[candidate] == row {
        return Some(candidate);
      }
      yn := yn + 1;
    }
    found := None;
  }

  /** One row that differs: copies an equal previous row, else sends its pixels. */
  method PutChangedRow(prev: seq<Row>, cur: seq<Row>, y: nat, output0: seq<byte>,
                       lastMatchOffset0: nat, lastCopy0: nat, ghost base: seq<byte>)
    returns (output: seq<byte>, lastMatchOffset: nat, lastCopy: nat)
    requires Encodable(prev, cur) && y < |prev| && prev[y] != cur[y] && base != []
    requires AtRow(prev, cur, y, base, output0, lastMatchOffset0, lastCopy0)
    ensures AtRow(prev, cur, y + 1, base, output, lastMatchOffset, lastCopy)
  {
    hide Hunt, AddRuns, AddCopy, Serialize, LastCopyAt, LatestCopy, CopiesEndAbove, AllGood, ApplyOps, Shows;
    ghost var s := Plan(prev, cur, y);
    OffsetIsSmall(prev, cur, y);
    var found := HuntRow(prev, cur[y], y, lastMatchOffset0, s.offset);
    match found
    case Some(m) =>
      PlanRebuilds(prev, cur, y);
      PlanCopiesEndAbove(prev, cur, y);
      output, lastMatchOffset, lastCopy :=
        PutCopy(m, y, output0, lastMatchOffset0, lastCopy0, s, base, |prev|);
    case None =>
      output := PutRow(prev[y], cur[y], y, output0, s.ops, base);
      lastMatchOffset, lastCopy := lastMatchOffset0, lastCopy0;
      RunsKeepLatestCopy(s.ops, prev[y], cur[y], y, 0, |base|);
  }

  /** The encoder.  `output` already holds `output0`; the delta is appended to it. */
  method MakeDelta(prev: DeltaData, cur: DeltaData, output0: seq<byte>) returns (ok: bool, output: seq<byte>)
    requires prev.Valid() && cur.Valid()
    requires prev.width == cur.width && prev.height == cur.height ==> prev.width <= 256 && prev.height <= 256
    ensures ok <==> prev.width == cur.width && prev.height == cur.height
    ensures ok ==> Encodable(prev.rows, cur.rows) && output == output0 + Encode(prev.rows, cur.rows)
    ensures !ok ==> output == output0
  {
    hide RowStep, Serialize;
    output := output0;
    if prev.width != cur.width || prev.height != cur.height {
      return false, output;
    }
    assert Encodable(prev.rows, cur.rows);
    output := output + [D_MARK];
    ghost var base := output;
    var lastMatchOffset: nat := 0;
    var lastCopy: nat := 0;
    StartsAtRow0(prev.rows, cur.rows, base);
    for y := 0 to prev.height
      invariant AtRow(prev.rows, cur.rows, y, base, output, lastMatchOffset, lastCopy)
    {
      if prev.rows[y] != cur.rows[y] {
        output, lastMatchOffset, lastCopy :=
          PutChangedRow(prev.rows, cur.rows, y, output, lastMatchOffset, lastCopy, base);
      } else {
        SameRow(prev.rows, cur.rows, y, base, output, lastMatchOffset, lastCopy);
      }
    }
    ok := true;
  }

  lemma {:induction false} StartsAtRow0(prev: seq<Row>, cur: seq<Row>, base: seq<byte>)
    requires Encodable(prev, cur)
    ensures AtRow(prev, cur, 0, base, base, 0, 0)
  {
    assert base + [] == base;
  }

  lemma {:induction false} SameRow(prev: seq<Row>, cur: seq<Row>, y: nat, base: seq<byte>,
                                   output: seq<byte>, lastMatchOffset: nat, lastCopy: nat)
    requires Encodable(prev, cur) && y < |prev| && prev[y] == cur[y]
    requires AtRow(prev, cur, y, base, output, lastMatchOffset, lastCopy)
    ensures AtRow(prev, cur, y + 1, base, output, lastMatchOffset, lastCopy)
  {
  }

  // ----- from a pixmap to rows --------------------------------------------------------------

  function PixelAt(pixmap: seq<byte>, i: nat): Pixel
    requires 4 * i + 4 <= |pixmap|
  {
    Pixel(pixmap[4 * i], pixmap[4 * i + 1], pixmap[4 * i + 2], pixmap[4 * i + 3])
  }

  /** The row holds the pixels of the buffer from index `start` on. */
  ghost predicate ReadsRow(row: Row, pixmap: seq<byte>, start: nat) {
    && 4 * (start + |row|) <= |pixmap|
    && forall x :: 0 <= x < |row| ==> row[x] == PixelAt(pixmap, start + x)
  }

  lemma {:induction false} WholePixels(width: nat)
    ensures (4 * width) % 4 == 0
  {
  }

  /** Row `y` of what the window of the pixmap shows. */
  ghost function RowShown(pixmap: seq<byte>, startX: nat, startY: nat, width: nat, height: nat,
                          bufferWidth: nat, bufferHeight: nat, y: nat): Row
    requires InBuffer(pixmap, startX, startY, width, height, bufferWidth, bufferHeight) && y < height
  {
    WholePixels(width);
    PixelsOf(Window(pixmap, startX, startY, width, height, bufferWidth, bufferHeight)[y])
  }

  /** The picture is what the window of the pixmap shows. */
  ghost predicate ShowsWindow(rows: seq<Row>, pixmap: seq<byte>, startX: nat, startY: nat, width: nat, height: nat,
                              bufferWidth: nat, bufferHeight: nat)
    requires InBuffer(pixmap, startX, startY, width, height, bufferWidth, bufferHeight)
  {
    && |rows| == height
    && forall y :: 0 <= y < height ==>
         rows[y] == RowShown(pixmap, startX, startY, width, height, bufferWidth, bufferHeight, y)
  }

  lemma {:induction false} PixelsAt(s: seq<byte>, x: nat)
    requires |s| % 4 == 0 && 4 * x + 4 <= |s|
    ensures PixelsOf(s)[x] == PixelAt(s, x)
  {
    if x > 0 {
      PixelsAt(s[4..], x - 1);
    }
  }

  lemma {:induction false} ReadRowIsOfWindow(row: Row, pixmap: seq<byte>, startX: nat, startY: nat, width: nat,
                                             height: nat, bufferWidth: nat, bufferHeight: nat, y: nat)
    requires InBuffer(pixmap, startX, startY, width, height, bufferWidth, bufferHeight) && y < height
    requires |row| == width && ReadsRow(row, pixmap, RowStart(startX, startY, bufferWidth, y))
    ensures row == RowShown(pixmap, startX, startY, width, height, bufferWidth, bufferHeight, y)
  {
    hide RowStart, Window, PixelsOf, InBuffer;
    RowIsOfWindow(pixmap, startX, startY, width, height, bufferWidth, bufferHeight, y);
    var start := RowStart(startX, startY, bufferWidth, y);
    var s := Window(pixmap, startX, startY, width, height, bufferWidth, bufferHeight)[y];
    WholePixels(width);
    forall x | 0 <= x < width ensures row[x] == PixelsOf(s)[x] {
      PixelsAt(s, x);
    }
  }

  method ReadRow(pixmap: seq<byte>, start: nat, width: nat) returns (row: Row)
    requires 4 * (start + width) <= |pixmap|
    ensures |row| == width && ReadsRow(row, pixmap, start)
  {
    row := [];
    for x := 0 to width
      invariant |row| == x && ReadsRow(row, pixmap, start)
    {
      row := row + [PixelAt(pixmap, start + x)];
    }
  }

  method DataToDeltaData(wid: nat, pixmap: seq<byte>, startX: nat, startY: nat, width: nat, height: nat,
                         bufferWidth: nat, bufferHeight: nat) returns (data: DeltaData)
    requires InBuffer(pixmap, startX, startY, width, height, bufferWidth, bufferHeight)
    ensures data.Valid() && data.wid == wid && data.width == width && data.height == height
    ensures ShowsWindow(data.rows, pixmap, startX, startY, width, height, bufferWidth, bufferHeight)
  {
    hide ReadsRow, RowStart, RowShown;
    var rows: seq<Row> := [];
    for y := 0 to height
      invariant IsBitmap(rows, width, y)
      invariant forall j :: 0 <= j < y ==>
                  rows[j] == RowShown(pixmap, startX, startY, width, height, bufferWidth, bufferHeight, j)
    {
      RowInBuffer(pixmap, startX, startY, width, height, bufferWidth, bufferHeight, y);
      var row := ReadRow(pixmap, RowStart(startX, startY, bufferWidth, y), width);
      ReadRowIsOfWindow(row, pixmap, startX, startY, width, height, bufferWidth, bufferHeight, y);
      rows := rows + [row];
    }
    data := DeltaData(wid, width, height, rows);
  }

  // ----- the window of recent bitmaps -------------------------------------------------------

  const MAX_ENTRIES: nat := 7

  function Newest(history: seq<DeltaData>): seq<DeltaData> {
    if |history| <= MAX_ENTRIES then history else history[|history| - MAX_ENTRIES..]
  }

  function FindWid(entries: seq<DeltaData>, wid: nat): (r: Option<DeltaData>)
    ensures r.Some? ==> r.value in entries && r.value.wid == wid
    ensures r.None? ==> forall d :: d in entries ==> d.wid != wid
  {
    if entries == [] then None
    else if entries[0].wid == wid then Some(entries[0])
    else FindWid(entries[1..], wid)
  }

  predicate SameSize(d: DeltaData, e: DeltaData) {
    d.width == e.width && d.height == e.height
  }

  ghost predicate AllValid(entries: seq<DeltaData>) {
    forall d :: d in entries ==> d.Valid()
  }

  /** What makeDelta asserts, and when: that rows and columns fit a byte, once the sizes are found to be
      equal. */
  predicate WithinLimits(entries: seq<DeltaData>, update: DeltaData, oldWid: nat) {
    match FindWid(entries, oldWid)
    case None => true
    case Some(d) => SameSize(d, update) ==> update.width <= 256 && update.height <= 256
  }

  lemma {:induction false} WindowSlides(history: seq<DeltaData>, update: DeltaData)
    ensures |history| <= 7 ==> Newest(history) == history
    ensures |history| > 7 ==> Newest(history) == history[|history| - 7..]
    ensures var entries := Newest(history);
            Newest(history + [update]) == (if |entries| > 6 then entries[1..] else entries) + [update]
  {
  }

  /** The delta against the first entry that carries `oldWid`. */
  ghost function DeltaAgainst(entries: seq<DeltaData>, update: DeltaData, oldWid: nat): Option<seq<byte>>
    requires update.Valid() && AllValid(entries) && WithinLimits(entries, update, oldWid)
  {
    match FindWid(entries, oldWid)
    case None => None
    case Some(d) =>
      assert d.Valid();
      if SameSize(d, update) then Some(Encode(d.rows, update.rows)) else None
  }

  lemma {:induction false} NewestAreValid(history: seq<DeltaData>)
    requires AllValid(history)
    ensures AllValid(Newest(history))
  {
  }

  /** What createDelta answers after storing the last bitmap of `history`. */
  ghost function Answer(history: seq<DeltaData>, oldWid: nat): Option<seq<byte>>
    requires history != [] && AllValid(history)
    requires WithinLimits(Newest(history), history[|history| - 1], oldWid)
  {
    NewestAreValid(history);
    DeltaAgainst(Newest(history), history[|history| - 1], oldWid)
  }

  /** The source's search through the entries. */
  method AppendDelta(entries: seq<DeltaData>, update: DeltaData, oldWid: nat, output0: seq<byte>)
    returns (ok: bool, output: seq<byte>)
    requires update.Valid() && AllValid(entries) && WithinLimits(entries, update, oldWid)
    ensures ok <==> DeltaAgainst(entries, update, oldWid).Some?
    ensures output == if ok then output0 + DeltaAgainst(entries, update, oldWid).value else output0
  {
    hide Encode, IsBitmap;
    for i := 0 to |entries|
      invariant FindWid(entries, oldWid) == FindWid(entries[i..], oldWid)
    {
      if oldWid == entries[i].wid {
        ok, output := MakeDelta(entries[i], update, output0);
        return;
      }
      assert entries[i..][1..] == entries[i + 1..];
    }
    ok, output := false, output0;
  }

  /** The same before the call: the entry that will be found has another size, or the new picture has at
      most 256 rows and columns.  The new picture itself is found if nothing else is. */
  predicate WillBeWithinLimits(entries: seq<DeltaData>, wid: nat, width: nat, height: nat, oldWid: nat) {
    var found := FindWid(if |entries| > 6 then entries[1..] else entries, oldWid);
    || (width <= 256 && height <= 256)
    || (if found.Some? then found.value.width != width || found.value.height != height else oldWid != wid)
  }

  lemma {:induction false} FindWidAppend(entries: seq<DeltaData>, update: DeltaData, oldWid: nat)
    ensures FindWid(entries + [update], oldWid) ==
            if FindWid(entries, oldWid).Some? then FindWid(entries, oldWid)
            else if update.wid == oldWid then Some(update) else None
  {
    if entries == [] {
      assert ([] + [update])[1..] == [];
    } else {
      FindWidAppend(entries[1..], update, oldWid);
      assert (entries + [update])[1..] == entries[1..] + [update];
    }
  }

  class DeltaGenerator {
    var entries: seq<DeltaData>
    /** Every bitmap stored so far, oldest first. */
    ghost var history: seq<DeltaData>

    ghost predicate Valid()
      reads this
    {
      entries == Newest(history) && AllValid(history)
    }

    constructor ()
      ensures Valid() && history == []
    {
      entries, history := [], [];
    }

    /** Stores the picture and appends a delta against `oldWid` to the output if that bitmap is
        still among the entries. */
    method CreateDelta(pixmap: seq<byte>, startX: nat, startY: nat, width: nat, height: nat,
                       bufferWidth: nat, bufferHeight: nat, output0: seq<byte>, wid: nat, oldWid: nat)
      returns (ok: bool, output: seq<byte>)
      requires Valid()
      requires InBuffer(pixmap, startX, startY, width, height, bufferWidth, bufferHeight)
      requires WillBeWithinLimits(entries, wid, width, height, oldWid)
      modifies this
      ensures Valid()
      ensures |history| == |old(history)| + 1 && history[..|old(history)|] == old(history)
      ensures var update := history[|old(history)|];
              && update.wid == wid && update.width == width && update.height == height
              && ShowsWindow(update.rows, pixmap, startX, startY, width, height, bufferWidth, bufferHeight)
      ensures WithinLimits(Newest(history), history[|history| - 1], oldWid)
      ensures ok <==> Answer(history, oldWid).Some?
      ensures output == if ok then output0 + Answer(history, oldWid).value else output0
    {
      hide ShowsWindow, IsBitmap, DeltaAgainst;
      if |entries| > 6 {
        entries := entries[1..];
      }
      var update := DataToDeltaData(wid, pixmap, startX, startY, width, height, bufferWidth, bufferHeight);
      FindWidAppend(entries, update, oldWid);
      entries := entries + [update];
      history := history + [update];
      WindowSlides(old(history), update);
      ok, output := AppendDelta(entries, update, oldWid, output0);
    }
  }

  // ----- a client that follows the server ---------------------------------------------------

  /** A wire id always denotes the same picture. */
  ghost predicate WidsAreUnique(history: seq<DeltaData>) {
    forall d, e :: d in history && e in history && d.wid == e.wid ==> d == e
  }

  /** Applying the answer to the picture known under `oldWid` gives the newest picture. */
  lemma {:induction false} AnswerDecodes(history: seq<DeltaData>, oldWid: nat, known: DeltaData)
    requires history != [] && AllValid(history) && WithinLimits(Newest(history), history[|history| - 1], oldWid)
    requires WidsAreUnique(history) && known in history && known.wid == oldWid
    ensures Answer(history, oldWid).Some? <==> known in Newest(history) && SameSize(known, history[|history| - 1])
    ensures Answer(history, oldWid).Some? ==>
            Decode(true, known.rows, Answer(history, oldWid).value) == Some(history[|history| - 1].rows)
  {
    hide Encode, Decode, Encodable, IsBitmap, FindWid, Newest;
    NewestAreValid(history);
    NewestAreOfHistory(history);
    var update := history[|history| - 1];
    var found := FindWid(Newest(history), oldWid);
    if found.Some? {
      assert found.value == known;
      if SameSize(known, update) {
        assert known.Valid() && update.Valid();
        SameSizeEncodable(known, update);
        RoundTrip(known.rows, update.rows);
      }
    }
  }

  lemma {:induction false} NewestAreOfHistory(history: seq<DeltaData>)
    ensures forall d :: d in Newest(history) ==> d in history
  {
  }

  lemma {:induction false} SameSizeEncodable(d: DeltaData, e: DeltaData)
    requires d.Valid() && e.Valid() && SameSize(d, e) && e.width <= 256 && e.height <= 256
    ensures Encodable(d.rows, e.rows)
  {
  }

  /** One call of createDelta: the picture and the wire id the client asks a delta against. */
  datatype Call = Call(picture: DeltaData, oldWid: nat)

  ghost function Pictures(calls: seq<Call>): (history: seq<DeltaData>)
    ensures |history| == |calls| && forall i :: 0 <= i < |calls| ==> history[i] == calls[i].picture
  {
    seq(|calls|, i requires 0 <= i < |calls| => calls[i].picture)
  }

  /** Every call keeps to what makeDelta asserts. */
  ghost predicate AllWithinLimits(calls: seq<Call>) {
    AllValid(Pictures(calls)) &&
    (calls != [] ==>
       var call := calls[|calls| - 1];
       WithinLimits(Newest(Pictures(calls)), call.picture, call.oldWid) && AllWithinLimits(calls[..|calls| - 1]))
  }

  /** What the last call is answered with, if there was one. */
  ghost function LastAnswer(calls: seq<Call>): Option<seq<byte>>
    requires AllWithinLimits(calls)
  {
    if calls == [] then None else Answer(Pictures(calls), calls[|calls| - 1].oldWid)
  }

  /** The pictures a client holds after a call, if it held `held` before: it applies the delta it gets to
      the picture it holds under the old id, and takes the full picture when there is no delta. */
  ghost function HoldsAfter(held: map<nat, seq<Row>>, call: Call, answer: Option<seq<byte>>): map<nat, seq<Row>> {
    match answer
    case None => held[call.picture.wid := call.picture.rows]
    case Some(delta) =>
      if call.oldWid !in held then held - {call.picture.wid}
      else
        match Decode(true, held[call.oldWid], delta)
        case None => held - {call.picture.wid}
        case Some(rows) => held[call.picture.wid := rows]
  }

  /** The pictures a client holds after the calls. */
  ghost function Client(calls: seq<Call>): map<nat, seq<Row>>
    requires AllWithinLimits(calls)
  {
    if calls == [] then map[]
    else HoldsAfter(Client(calls[..|calls| - 1]), calls[|calls| - 1], LastAnswer(calls))
  }

  ghost predicate Holds(held: map<nat, seq<Row>>, history: seq<DeltaData>) {
    forall w :: w in held ==> exists d :: d in history && d.wid == w && d.rows == held[w]
  }

  /** Over any run in which a wire id always denotes the same picture, everything the client holds
      is what the server sent, and a client that holds the old picture gets the newest one. */
  lemma {:induction false} ClientFollowsServer(calls: seq<Call>)
    requires AllWithinLimits(calls)
    requires WidsAreUnique(Pictures(calls))
    ensures Holds(Client(calls), Pictures(calls))
    ensures calls != [] ==>
              var before, call := calls[..|calls| - 1], calls[|calls| - 1];
              call.oldWid in Client(before) || LastAnswer(calls).None? ==>
                call.picture.wid in Client(calls) && Client(calls)[call.picture.wid] == call.picture.rows
    decreases |calls|
  {
    hide Decode, Answer, Newest, FindWid, WithinLimits;
    if calls != [] {
      var before, call := calls[..|calls| - 1], calls[|calls| - 1];
      var history := Pictures(calls);
      assert history == Pictures(before) + [call.picture];
      ClientFollowsServer(before);
      var held := Client(before);
      if call.oldWid in held {
        var known :| known in Pictures(before) && known.wid == call.oldWid && known.rows == held[call.oldWid];
        AnswerDecodes(history, call.oldWid, known);
      }
      HoldsMore(held, Client(calls), Pictures(before), call.picture);
    }
  }

  lemma {:induction false} HoldsMore(held: map<nat, seq<Row>>, held': map<nat, seq<Row>>, history: seq<DeltaData>,
                                     d: DeltaData)
    requires Holds(held, history)
    requires held' == held[d.wid := d.rows] || held' == held - {d.wid}
    ensures Holds(held', history + [d])
  {
    forall w | w in held'
      ensures exists e :: e in history + [d] && e.wid == w && e.rows == held'[w]
    {
      if w == d.wid {
        assert d in history + [d];
      } else {
        var e :| e in history && e.wid == w && e.rows == held[w];
        assert e in history + [d];
      }
    }
  }

  // ----- where the decoder must wrap --------------------------------------------------------

  /** 256 rows of one pixel, all different; then rows 255 and 0 of the picture move to rows 1 and
      2.  The encoder merges the two copies, and the decoder that counts source rows in ints looks
      for a row 256. */
  lemma {:induction false} WrapExample() returns (prev: seq<Row>, cur: seq<Row>)
    ensures Encodable(prev, cur) && IsBitmap(prev, 1, 256)
    ensures Decode(false, prev, Encode(prev, cur)) == None
    ensures Decode(true, prev, Encode(prev, cur)) == Some(cur)
  {
    prev := seq(256, i requires 0 <= i < 256 => [Pixel(i, 0, 0, 0)]);
    cur := prev[1 := prev[255]][2 := prev[0]];
    assert Plan(prev, cur, 1) == Scan(Empty, 0) by {
      assert prev[0] == cur[0];
      assert Plan(prev, cur, 0) == Scan(Empty, 0);
    }
    assert prev[1][0] != cur[1][0] && prev[2][0] != cur[2][0];
    HuntUnique(prev, cur[1], 1, 255);
    assert Plan(prev, cur, 2) == Scan(Then(Empty, Copy(1, 255, 1)), 254);
    HuntUnique(prev, cur[2], 256, 0);
    assert GrowsOverTop(prev, cur, 2);
    StrictRoundTrip(prev, cur);
    RoundTrip(prev, cur);
  }

  /** A delta byte by byte: rows 1 and 2 move to rows 0 and 1, and one pixel of row 2 changes, which is sent
      together with the equal one after it. */
  lemma {:induction false} DeltaExample(prev: seq<Row>, cur: seq<Row>)
    requires var (a, b, c, d) := (Pixel(1, 2, 3, 4), Pixel(5, 6, 7, 8), Pixel(9, 10, 11, 12), Pixel(13, 14, 15, 16));
             && prev == [[a, a, a], [b, b, b], [c, c, c], [d, d, d]]
             && cur == [[b, b, b], [c, c, c], [c, a, c], [d, d, d]]
    ensures Encodable(prev, cur)
    ensures Encode(prev, cur) == [68, 99, 2, 1, 0, 100, 2, 1, 2, 1, 2, 3, 4, 9, 10, 11, 12]
  {
    hide Hunt, Serialize;
    var (a, c) := (Pixel(1, 2, 3, 4), Pixel(9, 10, 11, 12));
    assert prev[0][0].b0 == 1 && prev[1][0].b0 == 5 && prev[2][0].b0 == 9 && prev[3][0].b0 == 13;
    assert Plan(prev, cur, 0) == Scan(Empty, 0);
    HuntUnique(prev, cur[0], 0, 1);
    assert Plan(prev, cur, 1) == Scan(Then(Empty, Copy(1, 1, 0)), 1);
    HuntUnique(prev, cur[1], 2, 2);
    assert Plan(prev, cur, 2) == Scan(Then(Empty, Copy(2, 1, 0)), 1);
    HuntIsComplete(prev, cur[2], 3);
    assert cur[2] !in prev by {
      assert cur[2][0] == c && cur[2][1] == a;
    }
    PixelChanged(Then(Empty, Copy(2, 1, 0)), a, c);
    var ops := Then(Then(Empty, Copy(2, 1, 0)), Run(2, 1, [a, c]));
    assert Plan(prev, cur, 3) == Scan(ops, 1);
    assert Plan(prev, cur, 4) == Scan(ops, 1);
    TwoCommands(a, c);
  }

  lemma {:induction false} TwoCommands(a: Pixel, c: Pixel)
    ensures [D_MARK] + Serialize(Then(Then(Empty, Copy(2, 1, 0)), Run(2, 1, [a, c]))) ==
            [68, 99, 2, 1, 0, 100, 2, 1, 2, a.b0, a.b1, a.b2, a.b3, c.b0, c.b1, c.b2, c.b3]
  {
    assert [a, c][1..] == [c];
    assert PixelBytes([c]) == [c.b0, c.b1, c.b2, c.b3] + PixelBytes([c][1..]);
    assert PixelBytes([a, c]) == [a.b0, a.b1, a.b2, a.b3, c.b0, c.b1, c.b2, c.b3];
    assert Serialize(Then(Empty, Copy(2, 1, 0))) == [99, 2, 1, 0];
  }

  lemma {:induction false} PixelChanged(ops: Commands, a: Pixel, c: Pixel)
    requires a != c
    ensures AddRuns(ops, [c, c, c], [c, a, c], 2, 0) == Then(ops, Run(2, 1, [a, c]))
  {
    var p, q := [c, c, c], [c, a, c];
    AddRunsStep(ops, p, q, 2, 0);
    assert SkipSame(p, q, 1) == 1;
    assert RunLength(p, q, 1, 2) == 2;
    assert RunLength(p, q, 1, 1) == 2;
    assert q[1..3] == [a, c];
  }
}
