/**
 * `BoundsOriginRoot` (RulesEngine/src/core/bounds.rs): an axis-aligned box
 * with one corner at the origin, described by its extent.
 */
module Bounds {

  /** A coordinate in x (column) / y (row) form. */
  datatype IVec2 = IVec2(x: int, y: int)

  datatype BoundsOriginRoot = BoundsOriginRoot(extent: IVec2)

  predicate Contains(b: BoundsOriginRoot, p: IVec2) {
    p.x >= 0 && p.x < b.extent.x && p.y >= 0 && p.y < b.extent.y
  }

  function Area(b: BoundsOriginRoot): int {
    b.extent.x * b.extent.y
  }

  /** With a zero (or negative) extent on either axis no point is contained. */
  lemma EmptyExtentContainsNothing(b: BoundsOriginRoot, p: IVec2)
    requires b.extent.x <= 0 || b.extent.y <= 0
    ensures !Contains(b, p)
  {
  }

  /** The points of row y with 0 <= x < width. */
  ghost function Row(width: nat, y: int): set<IVec2> {
    set x: int | 0 <= x < width :: IVec2(x, y)
  }

  /** The points with 0 <= x < width and 0 <= y < height. */
  ghost function Rect(width: nat, height: nat): set<IVec2> {
    set x: int, y: int | 0 <= x < width && 0 <= y < height :: IVec2(x, y)
  }

  lemma {:induction false} RowSize(width: nat, y: int)
    ensures |Row(width, y)| == width
  {
    if width > 0 {
      RowSize(width - 1, y);
      assert Row(width, y) == Row(width - 1, y) + {IVec2(width - 1, y)};
    }
  }

  /** Membership in a row and in a rectangle, coordinate by coordinate. */
  lemma RowRectMembers(width: nat, height: nat, p: IVec2)
    ensures p in Row(width, p.y) <==> 0 <= p.x < width
    ensures p in Rect(width, height) <==> 0 <= p.x < width && 0 <= p.y < height
  {
    if 0 <= p.x < width && 0 <= p.y < height {
      assert p == IVec2(p.x, p.y);
    }
  }

  /** A rectangle one row taller is the shorter one plus its last row, which it does not meet. */
  lemma RectSplit(width: nat, height: nat)
    requires height > 0
    ensures Rect(width, height) == Rect(width, height - 1) + Row(width, height - 1)
    ensures Rect(width, height - 1) !! Row(width, height - 1)
  {
    var h := height - 1;
    forall p | p in Rect(width, height)
      ensures p in Rect(width, h) + Row(width, h)
    {
      RowRectMembers(width, height, p);
      RowRectMembers(width, h, p);
    }
    forall p | p in Rect(width, h) + Row(width, h)
      ensures p in Rect(width, height)
    {
      RowRectMembers(width, height, p);
      RowRectMembers(width, h, p);
    }
    forall p | p in Row(width, h)
      ensures p !in Rect(width, h)
    {
      RowRectMembers(width, h, p);
    }
  }

  lemma {:induction false} RectSize(width: nat, height: nat)
    ensures |Rect(width, height)| == width * height
  {
    if height > 0 {
      RectSize(width, height - 1);
      RowSize(width, height - 1);
      RectSplit(width, height);
      assert width * height == width * (height - 1) + width;
    }
  }

  /** For a non-negative extent, exactly `Area` integer points are contained. */
  lemma ContainedPointsNumberArea(b: BoundsOriginRoot)
    requires b.extent.x >= 0 && b.extent.y >= 0
    ensures forall p :: p in Rect(b.extent.x, b.extent.y) <==> Contains(b, p)
    ensures |Rect(b.extent.x, b.extent.y)| == Area(b)
  {
    RectSize(b.extent.x, b.extent.y);
  }
}
