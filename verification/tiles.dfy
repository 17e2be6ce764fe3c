/**
 * The tile grid of the demo game in test.cc.
 *
 * The game lays out the origins of a 25 x 15 grid of 16-pixel tiles, offset
 * by 100 pixels from the corner of the screen, as consecutive (x, y) pairs
 * of an `int` array of 25 * 15 * 2 slots, row by row. It uploads the array
 * as a vertex buffer and draws 25 * 15 points from it, two `int`s per point.
 */
module TileDemo {
  import opened Graphics

  const Columns: nat := 25
  const Rows: nat := 15
  const TileSize: nat := 16
  const Margin: nat := 100

  /** Number of tiles, and so of (x, y) pairs in the array. */
  const PointCount: nat := Columns * Rows

  /** `25*15*2`: the length of `myarray`. */
  const BufferLength: nat := Columns * Rows * 2

  /** The count passed to `glDrawArrays`. */
  const DrawCount: nat := Columns * Rows

  /** The origin of tile `k`, counting row by row. */
  function TileOrigin(k: nat): Point {
    Point((k % Columns) * TileSize + Margin, (k / Columns) * TileSize + Margin)
  }

  /** The tile origins in drawing order. */
  function Positions(): (ps: seq<Point>)
    ensures |ps| == PointCount
  {
    seq(PointCount, k requires 0 <= k => TileOrigin(k))
  }

  /** Points laid out as consecutive (x, y) pairs. */
  function Flatten(ps: seq<Point>): (s: seq<int>)
    ensures |s| == 2 * |ps|
  {
    if ps == [] then [] else [ps[0].x, ps[0].y] + Flatten(ps[1..])
  }

  /** Point `k` occupies slots `2k` and `2k + 1`. */
  lemma {:induction false} FlattenAt(ps: seq<Point>, k: nat)
    requires k < |ps|
    ensures Flatten(ps)[2 * k] == ps[k].x && Flatten(ps)[2 * k + 1] == ps[k].y
  {
    if k > 0 {
      FlattenAt(ps[1..], k - 1);
      assert Flatten(ps) == [ps[0].x, ps[0].y] + Flatten(ps[1..]);
    }
  }

  /** What the draw call reads: `count` points, two consecutive `int`s each
      (`glVertexPointer(2, GL_INT, 0, 0)`), which must lie in the buffer. */
  function ReadPoints(buffer: seq<int>, count: nat): (ps: seq<Point>)
    requires 2 * count <= |buffer|
    ensures |ps| == count
  {
    seq(count, k requires 0 <= k < count => Point(buffer[2 * k], buffer[2 * k + 1]))
  }

  /** Reading pairs back from a flattened buffer gives the points again. */
  lemma ReadBack(ps: seq<Point>)
    ensures ReadPoints(Flatten(ps), |ps|) == ps
  {
  }

  /** Slot `j` of the laid-out origins: an x in even slots, a y in odd ones. */
  function LayoutSlot(j: nat): int {
    if j % 2 == 0 then TileOrigin(j / 2).x else TileOrigin(j / 2).y
  }

  /** The laid-out origins, slot by slot. */
  lemma LayoutSlots(j: nat)
    requires j < BufferLength
    ensures Flatten(Positions())[j] == LayoutSlot(j)
  {
    FlattenAt(Positions(), j / 2);
  }

  /** The fill loop of `Game::Game`: slot `i` gets the x of tile `i / 2`, slot
      `i + 1` its y, so the array ends up holding every origin in order. */
  method FillPositions(a: array<int>)
    requires a.Length == BufferLength
    modifies a
    ensures a[..] == Flatten(Positions())
  {
    var i := 0;
    while i < 25 * 15 * 2
      invariant 0 <= i <= BufferLength && i % 2 == 0
      invariant forall j :: 0 <= j < i ==> a[j] == LayoutSlot(j)
    {
      a[i] := ((i / 2) % 25) * 16 + 100;
      a[i + 1] := ((i / 2) / 25) * 16 + 100;
      assert (i + 1) / 2 == i / 2;
      i := i + 2;
    }
    forall j | 0 <= j < BufferLength
      ensures a[j] == Flatten(Positions())[j]
    {
      LayoutSlots(j);
    }
    assert a[..] == Flatten(Positions());
  }

  /** `Game::render` draws exactly the points the constructor filled in:
      every one of them, and nothing beyond the array. */
  lemma DrawReadsLayout()
    ensures 2 * DrawCount == |Flatten(Positions())|
    ensures ReadPoints(Flatten(Positions()), DrawCount) == Positions()
  {
    ReadBack(Positions());
  }

  /** Every x lies in [100, 484] and every y in [100, 324]. */
  lemma PositionsInBounds(k: nat)
    requires k < PointCount
    ensures 100 <= Positions()[k].x <= 484
    ensures 100 <= Positions()[k].y <= 324
  {
  }

  /** No two tiles share an origin. */
  lemma PositionsInjective(j: nat, k: nat)
    requires j < PointCount && k < PointCount && j != k
    ensures Positions()[j] != Positions()[k]
  {
  }

  /** The next tile lies 16 pixels to the right on the same row, or, after
      the last column, at the start of the next row. */
  lemma NextPosition(k: nat)
    requires k + 1 < PointCount
    ensures (k + 1) % Columns != 0 ==>
      Positions()[k + 1] == Point(Positions()[k].x + TileSize, Positions()[k].y)
    ensures (k + 1) % Columns == 0 ==>
      Positions()[k + 1] == Point(Margin, Positions()[k].y + TileSize)
  {
  }
}
