/** Tile descriptors (wsd/TileDesc.hpp): the geometry the message queue and the renderer rely on. */
module TileDescs {

  import opened Arithmetic

  datatype RawTileDesc = TileDesc(
    normalizedViewId: int, part: int, width: int, height: int, tilePosX: int, tilePosY: int,
    tileWidth: int, tileHeight: int, ver: int, imgSize: int, id: int, broadcast: bool,
    oldWireId: nat, wireId: nat)

  /** What the constructor accepts; it throws on anything else. */
  type TileDesc = t: RawTileDesc |
      && t.normalizedViewId >= 0 && t.part >= 0 && t.width > 0 && t.height > 0
      && t.tilePosX >= 0 && t.tilePosY >= 0 && t.tileWidth > 0 && t.tileHeight > 0 && t.imgSize >= 0
    witness TileDesc(0, 0, 1, 1, 0, 0, 1, 1, -1, 0, -1, false, 0, 0)

  datatype Rect = Rect(x: int, y: int, w: int, h: int)

  predicate RectanglesIntersect(r1: Rect, r2: Rect) {
    r1.x + r1.w >= r2.x && r1.x <= r2.x + r2.w && r1.y + r1.h >= r2.y && r1.y <= r2.y + r2.h
  }

  /** The point lies in the rectangle or on its border. */
  ghost predicate Meets(r: Rect, x: int, y: int) {
    r.x <= x <= r.x + r.w && r.y <= y <= r.y + r.h
  }

  /** Rectangles that only touch count as intersecting. */
  lemma {:induction false} IntersectExactly(r: Rect, s: Rect)
    requires r.w >= 0 && r.h >= 0 && s.w >= 0 && s.h >= 0
    ensures RectanglesIntersect(r, s) <==> exists x, y :: Meets(r, x, y) && Meets(s, x, y)
  {
    if RectanglesIntersect(r, s) {
      var x, y := if r.x < s.x then s.x else r.x, if r.y < s.y then s.y else r.y;
      assert Meets(r, x, y) && Meets(s, x, y);
    }
  }

  predicate IntersectsWithRect(t: TileDesc, r: Rect) {
    RectanglesIntersect(Rect(t.tilePosX, t.tilePosY, t.tileWidth, t.tileHeight), r)
  }

  predicate OnSameRow(t: TileDesc, other: TileDesc) {
    && other.part == t.part && other.width == t.width && other.height == t.height
    && other.tileWidth == t.tileWidth && other.tileHeight == t.tileHeight
    && other.normalizedViewId == t.normalizedViewId
    && other.tilePosY + other.tileHeight >= t.tilePosY
    && other.tilePosY <= t.tilePosY + t.tileHeight
  }

  /** On the same row and at most sixteen grid columns away. */
  predicate CanCombine(t: TileDesc, other: TileDesc) {
    && OnSameRow(t, other)
    && -16 <= t.tilePosX / t.tileWidth - other.tilePosX / other.tileWidth <= 16
  }

  // ----- tiles on one grid ------------------------------------------------------------------

  predicate OnGrid(t: TileDesc, column: nat, row: nat) {
    t.tilePosX == column * t.tileWidth && t.tilePosY == row * t.tileHeight
  }

  predicate SameView(t: TileDesc, other: TileDesc) {
    && other.part == t.part && other.width == t.width && other.height == t.height
    && other.tileWidth == t.tileWidth && other.tileHeight == t.tileHeight
    && other.normalizedViewId == t.normalizedViewId
  }

  /** Tiles of one view on a grid are combined if and only if they are at most sixteen columns and at most
      one row apart: "on the same row" takes in the rows that touch it. */
  lemma {:induction false} CombinesOnGrid(t: TileDesc, other: TileDesc, column: nat, row: nat, otherColumn: nat,
                                          otherRow: nat)
    requires OnGrid(t, column, row) && OnGrid(other, otherColumn, otherRow)
    ensures CanCombine(t, other) <==>
            && SameView(t, other)
            && -16 <= column - otherColumn <= 16 && -1 <= row - otherRow <= 1
  {
    ColumnOf(column, t.tileWidth);
    ColumnOf(otherColumn, other.tileWidth);
    if SameView(t, other) {
      RowsTouch(row, otherRow, t.tileHeight);
      RowsTouch(otherRow, row, t.tileHeight);
    }
  }

  lemma {:induction false} ColumnOf(column: nat, width: int)
    requires width > 0
    ensures (column * width) / width == column
  {
    ModOf(column, width, 0);
  }

  lemma {:induction false} RowsTouch(a: nat, b: nat, height: int)
    requires height > 0
    ensures a * height <= b * height + height <==> a <= b + 1
  {
    OneMore(height, b);
    if a <= b + 1 {
      MulMonotone(a, b + 1, height);
    } else {
      MulMonotone(b + 2, a, height);
      OneMore(height, b + 1);
    }
  }
}
