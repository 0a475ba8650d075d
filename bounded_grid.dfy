/**
 * `BoundedGrid<T>` (RulesEngine/src/core/bounded_grid.rs): a flat, row-major
 * vector of cells addressed by an `IVec2` inside a `BoundsOriginRoot`.
 */
module BoundedGrids {
  import Bounds
  import opened CoreModels

  /** The row-major position of p in the flat cell vector. */
  function FlatIndex(b: Bounds.BoundsOriginRoot, p: Bounds.IVec2): int {
    p.y * b.extent.x + p.x
  }

  /** Every contained point lands inside the cell vector. */
  lemma ContainedIndexInRange(b: Bounds.BoundsOriginRoot, p: Bounds.IVec2)
    requires Bounds.Contains(b, p)
    ensures 0 <= FlatIndex(b, p) < Bounds.Area(b)
  {
    var ex, ey := b.extent.x, b.extent.y;
    MulMonotone(p.y, ey - 1, ex);
    assert (ey - 1) * ex + ex == ey * ex;
    assert 0 <= p.y * ex by { MulMonotone(0, p.y, ex); }
  }

  /** Multiplying by a non-negative factor preserves order. */
  lemma MulMonotone(a: int, b: int, c: int)
    requires a <= b && c >= 0
    ensures a * c <= b * c
  {
    var d := b - a;
    assert b * c == a * c + d * c;
  }

  /** Distinct contained points land on distinct cells. */
  lemma ContainedIndexInjective(b: Bounds.BoundsOriginRoot, p: Bounds.IVec2, q: Bounds.IVec2)
    requires Bounds.Contains(b, p) && Bounds.Contains(b, q)
    requires FlatIndex(b, p) == FlatIndex(b, q)
    ensures p == q
  {
    var ex := b.extent.x;
    if p.y < q.y {
      MulMonotone(p.y + 1, q.y, ex);
    } else if q.y < p.y {
      MulMonotone(q.y + 1, p.y, ex);
    }
  }

  /** The cells of all other contained points are distinct from the cell of p. */
  lemma OtherCellsDistinct(b: Bounds.BoundsOriginRoot, p: Bounds.IVec2)
    requires Bounds.Contains(b, p)
    ensures forall q :: Bounds.Contains(b, q) && q != p ==>
      0 <= FlatIndex(b, q) < Bounds.Area(b) && FlatIndex(b, q) != FlatIndex(b, p)
  {
    forall q | Bounds.Contains(b, q) && q != p
      ensures 0 <= FlatIndex(b, q) < Bounds.Area(b) && FlatIndex(b, q) != FlatIndex(b, p)
    {
      ContainedIndexInRange(b, q);
      if FlatIndex(b, q) == FlatIndex(b, p) {
        ContainedIndexInjective(b, p, q);
      }
    }
  }

  class BoundedGrid<T> {
    const bounds: Bounds.BoundsOriginRoot
    const cells: array<T>

    ghost predicate Valid() {
      bounds.extent.x >= 0 && bounds.extent.y >= 0 && cells.Length == Bounds.Area(bounds)
    }

    /** `new`: `area` cells, every one a copy of `default`. */
    constructor (bounds: Bounds.BoundsOriginRoot, default: T)
      requires bounds.extent.x >= 0 && bounds.extent.y >= 0
      ensures Valid() && this.bounds == bounds && fresh(cells)
      ensures cells.Length == Bounds.Area(bounds)
      ensures forall k :: 0 <= k < cells.Length ==> cells[k] == default
    {
      this.bounds := bounds;
      cells := new T[bounds.extent.x * bounds.extent.y](_ => default);
    }

    function Size(): (b: Bounds.BoundsOriginRoot)
      ensures b == bounds
    {
      bounds
    }

    predicate Contains(p: Bounds.IVec2) {
      Bounds.Contains(bounds, p)
    }

    /** The row-major index of p lies inside the cell vector. */
    predicate Addressable(p: Bounds.IVec2) {
      0 <= FlatIndex(bounds, p) < cells.Length
    }

    /** `Index`: the cell at the row-major index; only the flat index is range-checked. */
    function At(p: Bounds.IVec2): T
      reads cells
      requires Addressable(p)
    {
      cells[FlatIndex(bounds, p)]
    }

    /** `get`: None exactly outside the bounds, otherwise the indexed cell. */
    function Get(p: Bounds.IVec2): (r: Option<T>)
      reads cells
      requires Valid()
      ensures r.None? <==> !Contains(p)
      ensures r.Some? ==> Addressable(p) && r.value == At(p)
    {
      if !Contains(p) then None
      else
        ContainedIndexInRange(bounds, p);
        Some(At(p))
    }

    /** `IndexMut`: overwrite the cell at p and no other. */
    method Put(p: Bounds.IVec2, v: T)
      requires Valid() && Contains(p)
      modifies cells
      ensures Addressable(p) && At(p) == v
      ensures forall q :: Contains(q) && q != p ==> Addressable(q) && At(q) == old(At(q))
    {
      ContainedIndexInRange(bounds, p);
      OtherCellsDistinct(bounds, p);
      cells[FlatIndex(bounds, p)] := v;
    }
  }
}
