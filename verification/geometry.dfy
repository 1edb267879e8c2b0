/** Positions, rectangles and the mapping from a position on screen to a pixel of the image. */
module Geometry {
  import opened Layers

  /** Unity's `Vector2`. */
  datatype Vec2 = Vec2(x: real, y: real)

  /** Unity's `Rect`: origin (x, y) and size (w, h). */
  datatype Rect = Rect(x: real, y: real, w: real, h: real)
  {
    /** `Rect.Contains`: the origin edges are inside, the far edges outside. */
    predicate Contains(p: Vec2)
      ensures Contains(p) ==> w > 0.0 && h > 0.0
    {
      x <= p.x < x + w && y <= p.y < y + h
    }
  }

  /** C#'s `(int)` cast of a floating-point value: truncation toward zero. */
  function Trunc(v: real): (n: int)
    ensures 0.0 <= v ==> n as real <= v < n as real + 1.0
    ensures v <= 0.0 ==> n as real - 1.0 < v <= n as real
  {
    if v >= 0.0 then v.Floor else -((-v).Floor)
  }

  /** The coordinate `GetPixelCoordinate` answers for a position outside the image. */
  const Sentinel: Coord := Coord(-1, -1)

  /** `a` lies in the k-th of n equal strips into which [0, len) is cut, that is
      k * len / n <= a < (k + 1) * len / n, stated here multiplied through by n. */
  ghost predicate InStrip(a: real, len: real, n: int, k: int)
  {
    k as real * len <= n as real * a < (k + 1) as real * len
  }

  lemma ScaleLeq(u: real, v: real, c: real)
    requires 0.0 < c
    ensures u <= v <==> u * c <= v * c
    ensures u < v <==> u * c < v * c
  {
    assert v * c - u * c == (v - u) * c;
    if u < v {
      assert 0.0 < (v - u) * c;
    } else {
      assert 0.0 <= (u - v) * c;
    }
  }

  lemma ScaledValue(a: real, len: real, n: int)
    requires len > 0.0
    ensures (n as real * (a / len)) * len == n as real * a
  {
    assert (a / len) * len == a;
    assert (n as real * (a / len)) * len == n as real * ((a / len) * len);
  }

  /** The strip test, rescaled: `a` is in strip k of n exactly when n * (a / len) lies in [k, k + 1). */
  lemma InStripScaled(a: real, len: real, n: int, k: int)
    requires len > 0.0
    ensures InStrip(a, len, n, k) <==> k as real <= n as real * (a / len) < (k + 1) as real
  {
    var v := n as real * (a / len);
    ScaledValue(a, len, n);
    ScaleLeq(k as real, v, len);
    ScaleLeq(v, (k + 1) as real, len);
    assert v * len == n as real * a;
    assert (k as real <= v) == (k as real * len <= n as real * a);
    assert (v < (k + 1) as real) == (n as real * a < (k + 1) as real * len);
  }

  /** The column (or row) the mapping computes for an offset `a` in [0, len): the index of the
      strip of n that holds `a`. */
  lemma FloorIsStrip(a: real, len: real, n: int)
    requires len > 0.0 && n > 0 && 0.0 <= a < len
    ensures 0 <= (n as real * (a / len)).Floor < n
    ensures InStrip(a, len, n, (n as real * (a / len)).Floor)
  {
    var v := n as real * (a / len);
    ScaledValue(a, len, n);
    ScaleLeq(0.0, a, n as real);
    ScaleLeq(a, len, n as real);
    assert 0.0 * len <= v * len < n as real * len;
    ScaleLeq(0.0, v, len);
    ScaleLeq(v, n as real, len);
    InStripScaled(a, len, n, v.Floor);
  }

  /** Conversely, the strip that holds `a` is the one the mapping computes. */
  lemma StripIsFloor(a: real, len: real, n: int, k: int)
    requires len > 0.0 && InStrip(a, len, n, k)
    ensures (n as real * (a / len)).Floor == k
  {
    InStripScaled(a, len, n, k);
  }

  /** The column `GetPixelCoordinate` computes for the horizontal position `px`, the image
      spanning [left, left + len) across n columns. */
  function Column(left: real, len: real, n: int, px: real): (k: int)
    requires len > 0.0
    ensures n > 0 && left <= px < left + len ==> 0 <= k < n
  {
    var v := n as real * ((px - left) / len);
    if n > 0 && left <= px < left + len then
      FloorIsStrip(px - left, len, n);
      Trunc(v)
    else Trunc(v)
  }

  /** The row `GetPixelCoordinate` computes for the vertical position `py`, the image
      spanning [top, top + len) down n rows. */
  function Row(top: real, len: real, n: int, py: real): (y: int)
    requires len > 0.0
    ensures n > 0 && top <= py < top + len ==> -n <= y <= -1
  {
    var v := n as real * ((top - py) / len);
    if n > 0 && top <= py < top + len then
      var q := (py - top) / len;
      FloorIsStrip(py - top, len, n);
      assert (top - py) / len == -q;
      assert v == -(n as real * q);
      Trunc(v) - 1
    else Trunc(v) - 1
  }

  /** Column arithmetic of the mapping: for an offset from the left edge the cast is the
      floor, the index of the strip holding the offset. */
  lemma ColumnIsStrip(left: real, len: real, n: int, px: real)
    requires len > 0.0 && n > 0 && left <= px < left + len
    ensures 0 <= Column(left, len, n, px) < n
    ensures InStrip(px - left, len, n, Column(left, len, n, px))
  {
    var v := n as real * ((px - left) / len);
    FloorIsStrip(px - left, len, n);
    assert 0.0 <= v;
    assert Trunc(v) == v.Floor;
  }

  /** Row arithmetic of the mapping: the offset is taken from the far side, so the cast
      truncates a non-positive value; less one, it is minus one minus the index of the strip
      holding the offset from the top edge. */
  lemma RowIsStrip(top: real, len: real, n: int, py: real)
    requires len > 0.0 && n > 0 && top <= py < top + len
    ensures -n <= Row(top, len, n, py) <= -1
    ensures InRowStrip(py - top, len, n, Row(top, len, n, py))
  {
    var q := (py - top) / len;
    assert (top - py) / len == -q;
    FloorIsStrip(py - top, len, n);
    assert n as real * (-q) == -(n as real * q);
    assert -1 - Row(top, len, n, py) == (n as real * q).Floor;
  }

  /** `a` lies in the strip holding row `y`, rows being numbered -1, -2, ... from the top edge. */
  ghost predicate InRowStrip(a: real, len: real, n: int, y: int)
  {
    InStrip(a, len, n, -1 - y)
  }

  /** `a` lies in the strip of `rect` holding column `c.x`, and in the strip, counted from the
      top edge (the lower y), holding row `c.y` when rows are numbered -1, -2, ... downward. */
  ghost predicate InCell(rect: Rect, width: int, height: int, pos: Vec2, c: Coord)
    requires rect.w > 0.0 && rect.h > 0.0 && width > 0 && height > 0
  {
    InStrip(pos.x - rect.x, rect.w, width, c.x) && InRowStrip(pos.y - rect.y, rect.h, height, c.y)
  }

  /** `UPAImage.GetPixelCoordinate` for the rectangle `rect` in which an image of
      width x height pixels is drawn: the sentinel outside the rectangle, otherwise the column
      counted from the left edge and the row counted (as -1, -2, ...) down from the top edge. */
  function PixelCoordinate(rect: Rect, width: int, height: int, pos: Vec2): (c: Coord)
    requires rect.w > 0.0 && rect.h > 0.0 && width > 0 && height > 0
    ensures c == Sentinel <==> !rect.Contains(pos)
    ensures rect.Contains(pos) ==> 0 <= c.x < width && -height <= c.y <= -1
  {
    if !rect.Contains(pos) then Sentinel
    else
      ColumnIsStrip(rect.x, rect.w, width, pos.x);
      RowIsStrip(rect.y, rect.h, height, pos.y);
      Coord(Column(rect.x, rect.w, width, pos.x), Row(rect.y, rect.h, height, pos.y))
  }

  /** A position inside the rectangle maps to the pixel whose screen cell holds it. */
  lemma PixelCoordinateIsCell(rect: Rect, width: int, height: int, pos: Vec2)
    requires rect.w > 0.0 && rect.h > 0.0 && width > 0 && height > 0 && rect.Contains(pos)
    ensures InCell(rect, width, height, pos, PixelCoordinate(rect, width, height, pos))
  {
    ColumnIsStrip(rect.x, rect.w, width, pos.x);
    RowIsStrip(rect.y, rect.h, height, pos.y);
  }

  /** Inside the rectangle the mapped pixel is the only one whose cell holds the position. */
  lemma PixelCoordinateIsOnlyCell(rect: Rect, width: int, height: int, pos: Vec2)
    requires rect.w > 0.0 && rect.h > 0.0 && width > 0 && height > 0 && rect.Contains(pos)
    ensures forall c :: InCell(rect, width, height, pos, c) <==> c == PixelCoordinate(rect, width, height, pos)
  {
    var p := PixelCoordinate(rect, width, height, pos);
    PixelCoordinateIsCell(rect, width, height, pos);
    forall c | InCell(rect, width, height, pos, c) ensures c == p {
      StripUnique(pos.x - rect.x, rect.w, width, c.x, p.x);
      StripUnique(pos.y - rect.y, rect.h, height, -1 - c.y, -1 - p.y);
    }
  }

  /** The centre of the k-th of n equal strips of [start, start + len). */
  function StripCentre(start: real, len: real, n: int, k: int): real
    requires n > 0
  {
    start + (k as real + 0.5) * len / n as real
  }

  /** The centre of the screen cell that shows pixel `c`: the centre of column `c.x` across,
      and of the strip `-1 - c.y` counted down from the top edge. */
  function CellCentre(rect: Rect, width: int, height: int, c: Coord): (p: Vec2)
    requires width > 0 && height > 0
  {
    Vec2(StripCentre(rect.x, rect.w, width, c.x), StripCentre(rect.y, rect.h, height, -1 - c.y))
  }

  /** The centre of strip k lies in strip k, and so inside [start, start + len). */
  lemma CentreInStrip(start: real, len: real, n: int, k: int)
    requires len > 0.0 && n > 0 && 0 <= k < n
    ensures InStrip(StripCentre(start, len, n, k) - start, len, n, k)
    ensures start <= StripCentre(start, len, n, k) < start + len
  {
    var a := (k as real + 0.5) * len / n as real;
    var na := (k as real + 0.5) * len;
    assert StripCentre(start, len, n, k) - start == a;
    assert n as real * a == na;
    ScaleLeq(k as real, k as real + 0.5, len);
    ScaleLeq(k as real + 0.5, k as real + 1.0, len);
    assert k as real * len <= na < (k + 1) as real * len;
    ScaleLeq(0.0, k as real + 0.5, len);
    ScaleLeq(k as real + 1.0, n as real, len);
    assert 0.0 <= na < n as real * len;
    ScaleLeq(0.0, a, n as real);
    ScaleLeq(a, len, n as real);
    assert a * n as real == na && len * n as real == n as real * len;
  }

  /** Strips do not overlap: an offset lies in at most one of them. */
  lemma StripUnique(a: real, len: real, n: int, k1: int, k2: int)
    requires len > 0.0 && InStrip(a, len, n, k1) && InStrip(a, len, n, k2)
    ensures k1 == k2
  {
    StripIsFloor(a, len, n, k1);
    StripIsFloor(a, len, n, k2);
  }

  /** The centre of column k lies across the image and maps back to column k. */
  lemma ColumnOfCentre(left: real, len: real, n: int, k: int)
    requires len > 0.0 && n > 0 && 0 <= k < n
    ensures left <= StripCentre(left, len, n, k) < left + len
    ensures Column(left, len, n, StripCentre(left, len, n, k)) == k
  {
    var px := StripCentre(left, len, n, k);
    CentreInStrip(left, len, n, k);
    ColumnIsStrip(left, len, n, px);
    StripUnique(px - left, len, n, Column(left, len, n, px), k);
  }

  /** The centre of row y (rows -1, -2, ... from the top edge) lies down the image and maps
      back to row y. */
  lemma RowOfCentre(top: real, len: real, n: int, y: int)
    requires len > 0.0 && n > 0 && -n <= y <= -1
    ensures top <= StripCentre(top, len, n, -1 - y) < top + len
    ensures Row(top, len, n, StripCentre(top, len, n, -1 - y)) == y
  {
    var py := StripCentre(top, len, n, -1 - y);
    CentreInStrip(top, len, n, -1 - y);
    RowIsStrip(top, len, n, py);
    StripUnique(py - top, len, n, -1 - Row(top, len, n, py), -1 - y);
  }

  /** Every pixel has a cell on screen: its centre lies in the rectangle and maps back to it. */
  lemma PixelCoordinateOfCellCentre(rect: Rect, width: int, height: int, c: Coord)
    requires rect.w > 0.0 && rect.h > 0.0 && width > 0 && height > 0
    requires 0 <= c.x < width && -height <= c.y <= -1
    ensures rect.Contains(CellCentre(rect, width, height, c))
    ensures PixelCoordinate(rect, width, height, CellCentre(rect, width, height, c)) == c
  {
    ColumnOfCentre(rect.x, rect.w, width, c.x);
    RowOfCentre(rect.y, rect.h, height, c.y);
  }

  /** Re-mapping the centre of the cell a position falls in gives the same pixel. */
  lemma RemapIsStable(rect: Rect, width: int, height: int, pos: Vec2)
    requires rect.w > 0.0 && rect.h > 0.0 && width > 0 && height > 0
    requires rect.Contains(pos)
    ensures var c := PixelCoordinate(rect, width, height, pos);
            PixelCoordinate(rect, width, height, CellCentre(rect, width, height, c)) == c
  {
    PixelCoordinateOfCellCentre(rect, width, height, PixelCoordinate(rect, width, height, pos));
  }
}
