/**
 A window of a pixmap of four bytes a pixel: what it shows, from the rows that the buffer consists of,
 and where the source looks for it.
*/
module Pixmaps {

  import opened Arithmetic
  import opened Wrappers

  /** The window of `width` by `height` pixels at (startX, startY) lies in the buffer. */
  ghost predicate InBuffer(pixmap: seq<byte>, startX: nat, startY: nat, width: nat, height: nat,
                           bufferWidth: nat, bufferHeight: nat) {
    && startX + width <= bufferWidth && startY + height <= bufferHeight
    && |pixmap| == 4 * (bufferWidth * bufferHeight)
  }

  // ----- rows -------------------------------------------------------------------------------

  function Concat(pieces: seq<seq<byte>>): seq<byte> {
    if pieces == [] then [] else Concat(pieces[..|pieces| - 1]) + pieces[|pieces| - 1]
  }

  /** The bytes cut into `n` pieces of the same size. */
  function Cut(s: seq<byte>, size: nat, n: nat): (rows: seq<seq<byte>>)
    requires |s| == n * size
    ensures |rows| == n && forall row :: row in rows ==> |row| == size
    decreases n
  {
    if n == 0 then []
    else
      OneMore(size, n - 1);
      [s[..size]] + Cut(s[size..], size, n - 1)
  }

  lemma {:induction false} ConcatFirst(piece: seq<byte>, pieces: seq<seq<byte>>)
    ensures Concat([piece] + pieces) == piece + Concat(pieces)
    decreases |pieces|
  {
    var all := [piece] + pieces;
    if pieces == [] {
      assert all[..|all| - 1] == [];
    } else {
      var before := pieces[..|pieces| - 1];
      assert all[..|all| - 1] == [piece] + before;
      ConcatFirst(piece, before);
    }
  }

  lemma {:induction false} CutStep(s: seq<byte>, size: nat, n: nat)
    requires |s| == n * size && n > 0
    ensures size <= |s| && |s[size..]| == (n - 1) * size
    ensures Cut(s, size, n) == [s[..size]] + Cut(s[size..], size, n - 1)
  {
    OneMore(size, n - 1);
  }

  lemma {:induction false} NothingCut(s: seq<byte>, size: nat)
    requires s == []
    ensures Concat(Cut(s, size, 0)) == s
  {
  }

  /** Cutting loses nothing and keeps the order. */
  lemma {:induction false} CutThenConcat(s: seq<byte>, size: nat, n: nat)
    requires |s| == n * size
    ensures Concat(Cut(s, size, n)) == s
    decreases n
  {
    hide Cut, Concat;
    if n > 0 {
      CutStep(s, size, n);
      CutThenConcat(s[size..], size, n - 1);
      ConcatFirst(s[..size], Cut(s[size..], size, n - 1));
      assert s[..size] + s[size..] == s;
    } else {
      NothingCut(s, size);
    }
  }

  /** Where a piece comes from. */
  lemma {:induction false} CutAt(s: seq<byte>, size: nat, n: nat, y: nat, from: nat)
    requires |s| == n * size && y < n && from == y * size
    ensures from + size <= |s| && Cut(s, size, n)[y] == s[from..from + size]
    decreases n
  {
    hide Cut;
    CutStep(s, size, n);
    if y > 0 {
      OneMore(size, y - 1);
      CutAt(s[size..], size, n - 1, y - 1, from - size);
      SliceAfter(s, size, from);
    }
  }

  lemma {:induction false} SliceAfter(s: seq<byte>, size: nat, from: nat)
    requires size <= from && from + size <= |s|
    ensures s[size..][from - size..from] == s[from..from + size]
  {
  }

  /** The picture in the window, row by row: of the rows of the buffer those from `startY` on, and of each
      the pixels from `startX` on. */
  function Window(pixmap: seq<byte>, startX: nat, startY: nat, width: nat, height: nat,
                  bufferWidth: nat, bufferHeight: nat): (rows: seq<seq<byte>>)
    requires InBuffer(pixmap, startX, startY, width, height, bufferWidth, bufferHeight)
    ensures |rows| == height && forall y :: 0 <= y < height ==> |rows[y]| == 4 * width
  {
    BufferSize(bufferWidth, bufferHeight);
    var all := Cut(pixmap, 4 * bufferWidth, bufferHeight);
    seq(height, y requires 0 <= y < height => all[startY + y][4 * startX..4 * (startX + width)])
  }

  /** The window of the whole buffer joined gives the buffer. */
  lemma {:induction false} WholeWindow(pixmap: seq<byte>, bufferWidth: nat, bufferHeight: nat)
    requires |pixmap| == 4 * (bufferWidth * bufferHeight)
    ensures Concat(Window(pixmap, 0, 0, bufferWidth, bufferHeight, bufferWidth, bufferHeight)) == pixmap
  {
    hide Cut, Concat;
    BufferSize(bufferWidth, bufferHeight);
    var size := 4 * bufferWidth;
    var all := Cut(pixmap, size, bufferHeight);
    CutThenConcat(pixmap, size, bufferHeight);
    var window := Window(pixmap, 0, 0, bufferWidth, bufferHeight, bufferWidth, bufferHeight);
    forall y | 0 <= y < bufferHeight ensures window[y] == all[y] {
      WholeRow(all[y]);
    }
    assert window == all;
  }

  lemma {:induction false} WholeRow(row: seq<byte>)
    ensures row[0..|row|] == row
  {
  }

  /** Windows side by side show what one as wide as both shows. */
  lemma {:induction false} SideBySide(pixmap: seq<byte>, startX: nat, startY: nat, left: nat, right: nat,
                                      height: nat, bufferWidth: nat, bufferHeight: nat, y: nat)
    requires InBuffer(pixmap, startX, startY, left + right, height, bufferWidth, bufferHeight) && y < height
    ensures Window(pixmap, startX, startY, left, height, bufferWidth, bufferHeight)[y] +
            Window(pixmap, startX + left, startY, right, height, bufferWidth, bufferHeight)[y] ==
            Window(pixmap, startX, startY, left + right, height, bufferWidth, bufferHeight)[y]
  {
    hide Cut;
    BufferSize(bufferWidth, bufferHeight);
    var row := Cut(pixmap, 4 * bufferWidth, bufferHeight)[startY + y];
    var a, b, c := 4 * startX, 4 * (startX + left), 4 * (startX + left + right);
    assert row[a..b] + row[b..c] == row[a..c];
  }

  /** So do windows one below the other. */
  lemma {:induction false} OneBelowTheOther(pixmap: seq<byte>, startX: nat, startY: nat, width: nat, upper: nat,
                                            lower: nat, bufferWidth: nat, bufferHeight: nat)
    requires InBuffer(pixmap, startX, startY, width, upper + lower, bufferWidth, bufferHeight)
    ensures Window(pixmap, startX, startY, width, upper, bufferWidth, bufferHeight) +
            Window(pixmap, startX, startY + upper, width, lower, bufferWidth, bufferHeight) ==
            Window(pixmap, startX, startY, width, upper + lower, bufferWidth, bufferHeight)
  {
    hide Window;
    var a := Window(pixmap, startX, startY, width, upper, bufferWidth, bufferHeight);
    var b := Window(pixmap, startX, startY + upper, width, lower, bufferWidth, bufferHeight);
    var c := Window(pixmap, startX, startY, width, upper + lower, bufferWidth, bufferHeight);
    forall y | 0 <= y < upper + lower ensures (a + b)[y] == c[y] {
      RowBelow(pixmap, startX, startY, width, upper, lower, bufferWidth, bufferHeight, y);
    }
  }

  lemma {:induction false} RowBelow(pixmap: seq<byte>, startX: nat, startY: nat, width: nat, upper: nat,
                                    lower: nat, bufferWidth: nat, bufferHeight: nat, y: nat)
    requires InBuffer(pixmap, startX, startY, width, upper + lower, bufferWidth, bufferHeight) && y < upper + lower
    ensures Window(pixmap, startX, startY, width, upper + lower, bufferWidth, bufferHeight)[y] ==
            if y < upper then Window(pixmap, startX, startY, width, upper, bufferWidth, bufferHeight)[y]
            else Window(pixmap, startX, startY + upper, width, lower, bufferWidth, bufferHeight)[y - upper]
  {
    hide Cut;
    BufferSize(bufferWidth, bufferHeight);
    assert startY + upper + (y - upper) == startY + y;
  }

  lemma {:induction false} BufferSize(bufferWidth: nat, bufferHeight: nat)
    ensures 4 * (bufferWidth * bufferHeight) == bufferHeight * (4 * bufferWidth)
  {
  }

  // ----- where the source looks -------------------------------------------------------------

  /** The index of the first pixel of row `y` of the window. */
  function RowStart(startX: nat, startY: nat, bufferWidth: nat, y: nat): nat {
    (startY + y) * bufferWidth + startX
  }

  lemma {:induction false} RowInBuffer(pixmap: seq<byte>, startX: nat, startY: nat, width: nat, height: nat,
                                       bufferWidth: nat, bufferHeight: nat, y: nat)
    requires InBuffer(pixmap, startX, startY, width, height, bufferWidth, bufferHeight) && y < height
    ensures 4 * (RowStart(startX, startY, bufferWidth, y) + width) <= |pixmap|
  {
    MulMonotone(startY + y + 1, bufferHeight, bufferWidth);
  }

  /** That is row `y` of the picture. */
  lemma {:induction false} RowIsOfWindow(pixmap: seq<byte>, startX: nat, startY: nat, width: nat, height: nat,
                                         bufferWidth: nat, bufferHeight: nat, y: nat)
    requires InBuffer(pixmap, startX, startY, width, height, bufferWidth, bufferHeight) && y < height
    ensures var position := 4 * RowStart(startX, startY, bufferWidth, y);
            && position + 4 * width <= |pixmap|
            && pixmap[position..position + 4 * width] ==
               Window(pixmap, startX, startY, width, height, bufferWidth, bufferHeight)[y]
  {
    hide Cut, RowStart;
    RowInBuffer(pixmap, startX, startY, width, height, bufferWidth, bufferHeight, y);
    BufferSize(bufferWidth, bufferHeight);
    PositionIs(startX, startY, bufferWidth, y);
    var size, j := 4 * bufferWidth, startY + y;
    var from := j * size;
    CutAt(pixmap, size, bufferHeight, j, from);
    SliceOfSlice(pixmap, from, size, 4 * startX, 4 * width);
  }

  lemma {:induction false} PositionIs(startX: nat, startY: nat, bufferWidth: nat, y: nat)
    ensures 4 * RowStart(startX, startY, bufferWidth, y) == (startY + y) * (4 * bufferWidth) + 4 * startX
  {
  }

  lemma {:induction false} SliceOfSlice(s: seq<byte>, from: nat, size: nat, a: nat, n: nat)
    requires a + n <= size && from + size <= |s|
    ensures s[from..from + size][a..a + n] == s[from + a..from + a + n]
  {
    var row := s[from..from + size];
    var t, u := row[a..a + n], s[from + a..from + a + n];
    forall k | 0 <= k < n ensures t[k] == u[k] {
      assert row[a + k] == s[from + a + k];
    }
  }
}
