/** The cells a paint or erase event in the web renderer touches: the primary
    cell, then its horizontal, vertical and diagonal mirrors, each reflected as
    `2 * axis - c` and kept only when the reflected coordinates fall on the grid. */
module Symmetry {

  type Cell = (int, int)

  /** The symmetry toggles and the axis row and column. */
  datatype Axes = Axes(horizontalActive: bool, verticalActive: bool, horizontalAxis: int, verticalAxis: int)

  /** Reflection of a row or column index across an axis index. */
  function Reflect(axis: int, c: int): int
  {
    2 * axis - c
  }

  predicate InGrid(c: Cell, width: int, height: int)
  {
    0 <= c.0 < width && 0 <= c.1 < height
  }

  /** The target cells of one event, in the order the web renderer pushes (or
      erases) them. Mirrors are not de-duplicated: a cell on an axis yields its
      own coordinates again. */
  function Targets(x: int, y: int, s: Axes, width: int, height: int): (r: seq<Cell>)
    ensures 1 <= |r| <= 4 && r[0] == (x, y)
    ensures forall i :: 1 <= i < |r| ==>
      r[i] in {(x, Reflect(s.horizontalAxis, y)), (Reflect(s.verticalAxis, x), y),
               (Reflect(s.verticalAxis, x), Reflect(s.horizontalAxis, y))}
    ensures InGrid((x, y), width, height) ==> forall c :: c in r ==> InGrid(c, width, height)
    ensures |r| == 1 <==>
      !(s.horizontalActive && 0 <= Reflect(s.horizontalAxis, y) < height) &&
      !(s.verticalActive && 0 <= Reflect(s.verticalAxis, x) < width)
    ensures var sx, sy := Reflect(s.verticalAxis, x), Reflect(s.horizontalAxis, y);
      var hIn, vIn := s.horizontalActive && 0 <= sy < height, s.verticalActive && 0 <= sx < width;
      |r| == 1 + (if hIn then 1 else 0) + (if vIn then 1 else 0) + (if hIn && vIn then 1 else 0) &&
      (hIn ==> r[1] == (x, sy)) &&
      (vIn ==> r[if hIn then 2 else 1] == (sx, y)) &&
      (hIn && vIn ==> r[3] == (sx, sy))
  {
    var sx, sy := Reflect(s.verticalAxis, x), Reflect(s.horizontalAxis, y);
    var hInRange, vInRange := 0 <= sy < height, 0 <= sx < width;
    [(x, y)]
    + (if s.horizontalActive && hInRange then [(x, sy)] else [])
    + (if s.verticalActive && vInRange then [(sx, y)] else [])
    + (if s.horizontalActive && s.verticalActive && hInRange && vInRange then [(sx, sy)] else [])
  }

  /** A corollary of `Targets`' contract: every active in-range mirror is among
      the targets, and four targets arise exactly when both toggles are on and
      both reflections land on the grid. */
  lemma TargetsComplete(x: int, y: int, s: Axes, width: int, height: int)
    ensures var r := Targets(x, y, s, width, height);
      var sx, sy := Reflect(s.verticalAxis, x), Reflect(s.horizontalAxis, y);
      (s.horizontalActive && 0 <= sy < height ==> (x, sy) in r) &&
      (s.verticalActive && 0 <= sx < width ==> (sx, y) in r) &&
      (s.horizontalActive && s.verticalActive && 0 <= sx < width && 0 <= sy < height ==> (sx, sy) in r) &&
      (|r| == 4 <==> s.horizontalActive && s.verticalActive && 0 <= sx < width && 0 <= sy < height)
  {
    var r := Targets(x, y, s, width, height);
    var sx, sy := Reflect(s.verticalAxis, x), Reflect(s.horizontalAxis, y);
    if s.horizontalActive && 0 <= sy < height {
      assert r[1] == (x, sy);
    }
    if s.verticalActive && 0 <= sx < width {
      if s.horizontalActive && 0 <= sy < height {
        assert r[2] == (sx, y);
        assert r[3] == (sx, sy);
      } else {
        assert r[1] == (sx, y);
      }
    }
  }

  /** With both toggles on over a 16 by 16 grid and both axes at 8, painting
      (2, 3) also paints (2, 13), (14, 3) and (14, 13). */
  lemma FourWayExample()
    ensures Targets(2, 3, Axes(true, true, 8, 8), 16, 16) == [(2, 3), (2, 13), (14, 3), (14, 13)]
  {
  }

  /** A cell on the active horizontal axis is targeted twice: no de-duplication. */
  lemma OnAxisTargetedTwice(x: int, s: Axes, width: int, height: int)
    requires s.horizontalActive && !s.verticalActive
    requires 0 <= s.horizontalAxis < height
    ensures Targets(x, s.horizontalAxis, s, width, height) == [(x, s.horizontalAxis), (x, s.horizontalAxis)]
  {
  }
}
